/** The eligibility rule of `check_user_eligibility`: a comment is valid when
    it has at least `MinWordCount` words, every comment gets one of two fixed
    replies, and the user may post when at least `MinReplies` comments are
    valid. The comments are given as their bodies, newest first, as the
    platform lists them. */
module Eligibility {
  import opened Words

  const MinWordCount: nat := 150
  const MinReplies: nat := 5

  /** Which of the two distinguished replies a comment receives. */
  datatype Reply = Counts | TooShort

  function ReplyText(r: Reply): string {
    match r
    case Counts =>
      "Thank you for your thoughtful comment! It counts towards your eligibility to post."
    case TooShort =>
      "Your comment is appreciated, but it needs to be at least 150 words to count towards your posting eligibility. Keep engaging!"
  }

  predicate IsValid(body: string) {
    CountWords(body) >= MinWordCount
  }

  function Classify(body: string): Reply {
    if IsValid(body) then Counts else TooShort
  }

  /** The `valid_comments` list: the valid comments, in comment order. */
  function ValidComments(bodies: seq<string>): (v: seq<string>)
    ensures |v| <= |bodies|
    ensures forall k :: 0 <= k < |v| ==> IsValid(v[k])
    ensures multiset(v) <= multiset(bodies)
    decreases |bodies|
  {
    if bodies == [] then []
    else
      var init := bodies[..|bodies| - 1];
      var last := bodies[|bodies| - 1];
      assert bodies == init + [last];
      ValidComments(init) + (if IsValid(last) then [last] else [])
  }

  /** The replies sent, one per comment, in comment order. */
  function Replies(bodies: seq<string>): (r: seq<Reply>)
    ensures |r| == |bodies|
    ensures forall k :: 0 <= k < |bodies| ==> r[k] == Classify(bodies[k])
    decreases |bodies|
  {
    if bodies == [] then []
    else Replies(bodies[..|bodies| - 1]) + [Classify(bodies[|bodies| - 1])]
  }

  /** The verdict: `len(valid_comments) >= MIN_REPLIES`. */
  predicate Eligible(bodies: seq<string>) {
    |ValidComments(bodies)| >= MinReplies
  }

  /** `check_user_eligibility`: one pass over the comments that appends each
      valid one to `valid_comments` and replies to every comment. */
  method CheckUserEligibility(comments: seq<string>) returns (eligible: bool, replies: seq<Reply>)
    ensures replies == Replies(comments)
    ensures eligible == Eligible(comments)
  {
    var validComments: seq<string> := [];
    replies := [];
    for i := 0 to |comments|
      invariant validComments == ValidComments(comments[..i])
      invariant replies == Replies(comments[..i])
    {
      assert comments[..i + 1][..i] == comments[..i];
      if CountWords(comments[i]) >= MinWordCount {
        validComments := validComments + [comments[i]];
        replies := replies + [Counts];
      } else {
        replies := replies + [TooShort];
      }
    }
    assert comments[..|comments|] == comments;
    eligible := |validComments| >= MinReplies;
  }

  lemma {:induction false} ValidCommentsAppend(a: seq<string>, b: seq<string>)
    ensures ValidComments(a + b) == ValidComments(a) + ValidComments(b)
    decreases |b|
  {
    if b != [] {
      var b' := b[..|b| - 1];
      assert (a + b)[..|a + b| - 1] == a + b';
      ValidCommentsAppend(a, b');
    } else {
      assert a + b == a;
    }
  }

  /** Every comment is classified exactly once: the "counts" replies are as
      many as the valid comments, and the two kinds together are as many as
      the comments. */
  lemma {:induction false} RepliesMatchValid(bodies: seq<string>)
    ensures multiset(Replies(bodies))[Counts] == |ValidComments(bodies)|
    ensures multiset(Replies(bodies))[Counts] + multiset(Replies(bodies))[TooShort] == |bodies|
    decreases |bodies|
  {
    if bodies != [] {
      var init := bodies[..|bodies| - 1];
      RepliesMatchValid(init);
      assert Replies(bodies) == Replies(init) + [Classify(bodies[|bodies| - 1])];
    }
  }

  /** The verdict holds exactly when at least `MinReplies` "counts" replies
      were sent, so it needs at least that many comments. */
  lemma EligibleByReplies(bodies: seq<string>)
    ensures Eligible(bodies) <==> multiset(Replies(bodies))[Counts] >= MinReplies
    ensures Eligible(bodies) ==> |bodies| >= MinReplies
  {
    RepliesMatchValid(bodies);
  }

  /** Fewer comments (as a multiset) never give more valid comments. */
  lemma {:induction false} ValidCountMonotone(a: seq<string>, b: seq<string>)
    requires multiset(a) <= multiset(b)
    ensures |ValidComments(a)| <= |ValidComments(b)|
    decreases |a|
  {
    if a != [] {
      var x := a[|a| - 1];
      var a' := a[..|a| - 1];
      assert a == a' + [x];
      assert x in multiset(b);
      var j :| 0 <= j < |b| && b[j] == x;
      var b' := b[..j] + b[j + 1..];
      assert b == b[..j] + [x] + b[j + 1..];
      assert multiset(b) == multiset(b[..j]) + multiset([x]) + multiset(b[j + 1..]);
      assert multiset(b') == multiset(b[..j]) + multiset(b[j + 1..]);
      assert multiset(a) == multiset(a') + multiset([x]);
      forall y ensures multiset(a')[y] <= multiset(b')[y] {
        assert multiset(a)[y] <= multiset(b)[y];
      }
      assert multiset(a') <= multiset(b');
      ValidCountMonotone(a', b');
      ValidCommentsAppend(b[..j], [x]);
      ValidCommentsAppend(b[..j] + [x], b[j + 1..]);
      ValidCommentsAppend(b[..j], b[j + 1..]);
      assert ValidComments([x]) == ValidComments([]) + (if IsValid(x) then [x] else []);
    }
  }

  /** The verdict does not depend on the order of the comments. */
  lemma EligibleReorder(a: seq<string>, b: seq<string>)
    requires multiset(a) == multiset(b)
    ensures Eligible(a) == Eligible(b)
  {
    ValidCountMonotone(a, b);
    ValidCountMonotone(b, a);
  }

  /** More comments never turn an eligible user ineligible. */
  lemma EligibleMonotone(a: seq<string>, b: seq<string>)
    requires multiset(a) <= multiset(b)
    ensures Eligible(a) ==> Eligible(b)
  {
    ValidCountMonotone(a, b);
  }

  /** Adding one comment anywhere never turns an eligible user ineligible. */
  lemma EligibleAfterInsert(bodies: seq<string>, i: nat, c: string)
    requires i <= |bodies|
    ensures Eligible(bodies) ==> Eligible(bodies[..i] + [c] + bodies[i..])
  {
    assert bodies == bodies[..i] + bodies[i..];
    EligibleMonotone(bodies, bodies[..i] + [c] + bodies[i..]);
  }
}
