/** `monitor_subreddit`: for each new submission, check its author's
    comments and either reset the author's record (eligible) or remove the
    submission and post a sticky notice (not eligible). The platform's
    replies and removals are recorded as action values, in the order the
    code issues them. */
module Monitor {
  import opened Wrappers
  import opened Eligibility
  import opened Activity

  /** A submission's author: the username and the bodies of the comments
      `user.comments.new(limit=100)` lists. */
  datatype Author = Author(name: string, comments: seq<string>)

  /** A submission from the stream; `author` is `None` for a deleted account. */
  datatype Submission = Submission(author: Option<Author>, title: string)

  datatype Action =
    /** `comment.reply(text).mod.distinguish(how='yes')` on the author's
        comment at position `comment` of the listing. */
    | ReplyToComment(author: string, comment: nat, reply: Reply)
    /** `submission.mod.remove()` */
    | RemoveSubmission
    /** `submission.reply(RemovalNotice(author)).mod.distinguish(how='yes', sticky=True)` */
    | StickyNotice(author: string)

  /** The sticky removal notice addressed to the author. */
  function RemovalNotice(name: string): string {
    "Hi " + name + NoticeBody
  }

  const NoticeBody: string := ", your post has been removed because you have not met the required engagement criteria. Please engage with other members' music by making meaningful comments (at least 150 words each) and then try posting again. Thank you for understanding!"

  /** The text an action posts, if it posts one. */
  function PostedText(act: Action): Option<string> {
    match act
    case ReplyToComment(_, _, reply) => Some(ReplyText(reply))
    case RemoveSubmission => None
    case StickyNotice(author) => Some(RemovalNotice(author))
  }

  /** The notice greets the author by name. */
  lemma NoticeGreetsAuthor(name: string)
    ensures PostedText(StickyNotice(name)).Some?
    ensures var text := PostedText(StickyNotice(name)).value;
      |text| >= 3 + |name| && text[..3] == "Hi " && text[3..3 + |name|] == name
  {
    var text := RemovalNotice(name);
    assert text == ("Hi " + name) + NoticeBody;
    assert text[..3 + |name|] == "Hi " + name;
  }

  /** Replies, in order, as actions on the listed comments. */
  function ReplyActions(name: string, replies: seq<Reply>): seq<Action> {
    seq(|replies|, i requires 0 <= i < |replies| => ReplyToComment(name, i, replies[i]))
  }

  /** The replies `check_user_eligibility` posts: one on each listed
      comment, in listing order, "counts" exactly on the comments of at
      least 150 words. */
  function CommentReplies(a: Author): (acts: seq<Action>)
    ensures |acts| == |a.comments|
    ensures forall i :: 0 <= i < |a.comments| ==>
      acts[i] == ReplyToComment(a.name, i, Classify(a.comments[i]))
  {
    ReplyActions(a.name, Replies(a.comments))
  }

  /** The decision for one submission on the table: no author, nothing
      happens; an eligible author gets the record `(0, today)`; otherwise
      the submission is removed and a sticky notice is posted, after the
      comment replies, and the table stays as it was. */
  function Decide(t: Table, s: Submission, today: string): (out: (Table, seq<Action>))
    ensures s.author.None? ==> out == (t, [])
    ensures s.author.Some? ==>
      var a := s.author.value;
      && |out.1| >= |a.comments|
      && out.1[..|a.comments|] == CommentReplies(a)
      && (forall i :: 0 <= i < |a.comments| ==>
            out.1[i] == ReplyToComment(a.name, i, Classify(a.comments[i])))
    ensures RemoveSubmission in out.1 <==> s.author.Some? && !Eligible(s.author.value.comments)
    ensures s.author.Some? && !Eligible(s.author.value.comments) ==>
      && out.0 == t
      && |out.1| == |s.author.value.comments| + 2
      && out.1[|out.1| - 2..] == [RemoveSubmission, StickyNotice(s.author.value.name)]
    ensures s.author.Some? && Eligible(s.author.value.comments) ==>
      var name := s.author.value.name;
      && out.1 == CommentReplies(s.author.value)
      && (forall x :: x in out.1 ==> x.ReplyToComment?)
      && name in out.0.entries && out.0.entries[name] == Record(0, today)
      && out.0.entries.Keys == t.entries.Keys + {name}
    ensures forall v :: v in t.entries && (s.author.None? || v != s.author.value.name) ==>
      v in out.0.entries && out.0.entries[v] == t.entries[v]
  {
    match s.author
    case None => (t, [])
    case Some(a) =>
      var replies := CommentReplies(a);
      if Eligible(a.comments) then
        (Put(t, a.name, Record(0, today)), replies)
      else
        (t, replies + [RemoveSubmission, StickyNotice(a.name)])
  }

  /** What the processing of a run leaves behind: the file, the actions
      issued, and the exception that ended the loop, if any. */
  datatype Outcome = Outcome(file: Option<seq<Row>>, actions: seq<Action>, raised: Option<ReadError>)

  /** One iteration of the loop on the file. Resetting an eligible author
      reads and rewrites the file; what that raises ends the loop (after the
      comment replies were posted). */
  function Process(file: Option<seq<Row>>, s: Submission, today: string): (o: Outcome)
    ensures Read(o.file).Ok? <==> Read(file).Ok?
    ensures o.raised.Some? ==> s.author.Some? && Eligible(s.author.value.comments)
    ensures o.raised.Some? ==> o.file == file && Read(file).Err? && o.raised.value == Read(file).error
    ensures s.author.Some? && Eligible(s.author.value.comments) && Read(file).Err? ==>
      o == Outcome(file, CommentReplies(s.author.value), Some(Read(file).error))
    ensures s.author.None? ==> o == Outcome(file, [], None)
    ensures s.author.Some? && !Eligible(s.author.value.comments) ==>
      o == Outcome(file, CommentReplies(s.author.value) + [RemoveSubmission, StickyNotice(s.author.value.name)], None)
  {
    match s.author
    case None => Outcome(file, [], None)
    case Some(a) =>
      var replies := CommentReplies(a);
      if Eligible(a.comments) then
        match Reset(file, a.name, today)
        case Ok(rows) => Outcome(Some(rows), replies, None)
        case Err(e) => Outcome(file, replies, Some(e))
      else
        Outcome(file, replies + [RemoveSubmission, StickyNotice(a.name)], None)
  }

  /** The loop over the first submissions of the stream; `dates[i]` is the
      date when submission `i` is handled. The file reads after the loop
      exactly when it read before, and the loop raises only on a file that
      does not read, with the error that reading it gives. */
  function Run(file: Option<seq<Row>>, stream: seq<Submission>, dates: seq<string>): (o: Outcome)
    requires |dates| == |stream|
    ensures Read(o.file).Ok? <==> Read(file).Ok?
    ensures o.raised.Some? ==> Read(file).Err? && o.raised.value == Read(o.file).error
    decreases |stream|
  {
    if stream == [] then Outcome(file, [], None)
    else
      var n := |stream| - 1;
      var prev := Run(file, stream[..n], dates[..n]);
      if prev.raised.Some? then prev
      else
        var o := Process(prev.file, stream[n], dates[n]);
        Outcome(o.file, prev.actions + o.actions, o.raised)
  }

  /** Submission `i` has an author who is eligible. */
  predicate EligibleAt(stream: seq<Submission>, i: nat)
    requires i < |stream|
  {
    stream[i].author.Some? && Eligible(stream[i].author.value.comments)
  }

  /** On a file that does not read, submissions without an eligible author
      raise nothing and leave the file as it was. */
  lemma {:induction false} RunUnreadableQuiet(file: Option<seq<Row>>, stream: seq<Submission>, dates: seq<string>)
    requires |dates| == |stream| && Read(file).Err?
    requires forall j :: 0 <= j < |stream| ==> !EligibleAt(stream, j)
    ensures Run(file, stream, dates).raised.None?
    ensures Run(file, stream, dates).file == file
    decreases |stream|
  {
    if stream != [] {
      var n := |stream| - 1;
      forall j | 0 <= j < n ensures !EligibleAt(stream[..n], j) {
        assert stream[..n][j] == stream[j];
        assert !EligibleAt(stream, j);
      }
      RunUnreadableQuiet(file, stream[..n], dates[..n]);
      assert !EligibleAt(stream, n);
    }
  }

  /** On a file that does not read, the first submission with an eligible
      author raises the read's error after its comment replies, and the run
      ends there with the file as it was. */
  lemma RunUnreadableRaises(file: Option<seq<Row>>, stream: seq<Submission>, dates: seq<string>, i: nat)
    requires |dates| == |stream| && Read(file).Err?
    requires i < |stream| && EligibleAt(stream, i)
    requires forall j :: 0 <= j < i ==> !EligibleAt(stream, j)
    ensures var o := Run(file, stream, dates);
      && o.raised == Some(Read(file).error)
      && o.file == file
      && o.actions == Run(file, stream[..i], dates[..i]).actions + CommentReplies(stream[i].author.value)
  {
    forall j | 0 <= j < i ensures !EligibleAt(stream[..i], j) {
      assert stream[..i][j] == stream[j];
      assert !EligibleAt(stream, j);
    }
    RunUnreadableQuiet(file, stream[..i], dates[..i]);
    RunLast(file, stream, dates, i);
    RunStops(file, stream, dates, i + 1);
  }

  /** On a readable file, one iteration issues the actions of the decision
      and leaves a file that reads as the decided table. */
  lemma ProcessMatchesDecide(file: Option<seq<Row>>, s: Submission, today: string)
    requires Read(file).Ok?
    ensures var o := Process(file, s, today);
      var d := Decide(Read(file).value, s, today);
      && o.raised.None?
      && o.actions == d.1
      && Read(o.file) == Ok(d.0)
  {
    if s.author.Some? && Eligible(s.author.value.comments) {
      UpdateSemantics(file, s.author.value.name, Record(0, today));
      RenderParse(Put(Read(file).value, s.author.value.name, Record(0, today)));
    }
  }

  /** The decisions for a sequence of submissions, on the table alone. */
  function DecideRun(t: Table, stream: seq<Submission>, dates: seq<string>): (Table, seq<Action>)
    requires |dates| == |stream|
    decreases |stream|
  {
    if stream == [] then (t, [])
    else
      var n := |stream| - 1;
      var prev := DecideRun(t, stream[..n], dates[..n]);
      var d := Decide(prev.0, stream[n], dates[n]);
      (d.0, prev.1 + d.1)
  }

  /** Started on a readable file, the loop never raises, issues the actions
      of the decisions in order, and leaves a file that reads as the table
      the decisions produce. */
  lemma {:induction false} RunMatchesDecide(file: Option<seq<Row>>, stream: seq<Submission>, dates: seq<string>)
    requires |dates| == |stream| && Read(file).Ok?
    ensures var o := Run(file, stream, dates);
      var d := DecideRun(Read(file).value, stream, dates);
      && o.raised.None?
      && o.actions == d.1
      && Read(o.file) == Ok(d.0)
    decreases |stream|
  {
    if stream != [] {
      var n := |stream| - 1;
      RunMatchesDecide(file, stream[..n], dates[..n]);
      ProcessMatchesDecide(Run(file, stream[..n], dates[..n]).file, stream[n], dates[n]);
    }
  }

  /** Once an iteration raised, later submissions change nothing. */
  lemma {:induction false} RunStops(file: Option<seq<Row>>, stream: seq<Submission>, dates: seq<string>, k: nat)
    requires |dates| == |stream| && k <= |stream|
    requires Run(file, stream[..k], dates[..k]).raised.Some?
    ensures Run(file, stream, dates) == Run(file, stream[..k], dates[..k])
    decreases |stream|
  {
    if k == |stream| {
      assert stream[..k] == stream && dates[..k] == dates;
    } else {
      var n := |stream| - 1;
      assert stream[..n][..k] == stream[..k] && dates[..n][..k] == dates[..k];
      RunStops(file, stream[..n], dates[..n], k);
      RunLast(file, stream, dates, n);
      assert stream[..n + 1] == stream && dates[..n + 1] == dates;
    }
  }

  /** Started on a readable file, the loop never raises, the file stays
      readable, and a user's record changes only when an eligible
      submission by that user was handled. */
  lemma {:induction false} RunKeepsOthers(file: Option<seq<Row>>, stream: seq<Submission>, dates: seq<string>, u: string)
    requires |dates| == |stream| && Read(file).Ok?
    requires forall i :: 0 <= i < |stream| && stream[i].author.Some? && stream[i].author.value.name == u
               ==> !Eligible(stream[i].author.value.comments)
    ensures Run(file, stream, dates).raised.None?
    ensures Read(Run(file, stream, dates).file).Ok?
    ensures var t := Read(file).value;
      var t' := Read(Run(file, stream, dates).file).value;
      && (u in t.entries <==> u in t'.entries)
      && (u in t.entries ==> t'.entries[u] == t.entries[u])
    decreases |stream|
  {
    if stream != [] {
      var n := |stream| - 1;
      forall i | 0 <= i < n && stream[..n][i].author.Some? && stream[..n][i].author.value.name == u
        ensures !Eligible(stream[..n][i].author.value.comments)
      {
        assert stream[..n][i] == stream[i];
      }
      RunKeepsOthers(file, stream[..n], dates[..n], u);
      var prev := Run(file, stream[..n], dates[..n]);
      ProcessMatchesDecide(prev.file, stream[n], dates[n]);
    }
  }

  /** The body of the loop in `monitor_subreddit`, for one submission. */
  method HandleSubmission(file: ActivityFile, submission: Submission, today: string)
    returns (actions: seq<Action>, raised: Option<ReadError>)
    modifies file
    ensures Outcome(file.contents, actions, raised) == Process(old(file.contents), submission, today)
  {
    actions := [];
    raised := None;
    var author := submission.author;
    if author.Some? {
      var eligible, replies := CheckUserEligibility(author.value.comments);
      actions := ReplyActions(author.value.name, replies);
      if eligible {
        raised := file.ResetUserActivity(author.value.name, today);
      } else {
        actions := actions + [RemoveSubmission, StickyNotice(author.value.name)];
      }
    }
  }

  lemma RunLast(file: Option<seq<Row>>, stream: seq<Submission>, dates: seq<string>, i: nat)
    requires |dates| == |stream| && i < |stream|
    ensures var prev := Run(file, stream[..i], dates[..i]);
      var o := Process(prev.file, stream[i], dates[i]);
      Run(file, stream[..i + 1], dates[..i + 1])
        == if prev.raised.Some? then prev else Outcome(o.file, prev.actions + o.actions, o.raised)
  {
    assert stream[..i + 1][..i] == stream[..i] && dates[..i + 1][..i] == dates[..i];
  }

  /** `monitor_subreddit` over the first `|stream|` submissions: the loop
      ends early when an iteration raises. */
  method MonitorSubreddit(file: ActivityFile, stream: seq<Submission>, dates: seq<string>)
    returns (actions: seq<Action>, raised: Option<ReadError>)
    requires |dates| == |stream|
    modifies file
    ensures Outcome(file.contents, actions, raised) == Run(old(file.contents), stream, dates)
  {
    actions := [];
    raised := None;
    var i := 0;
    while i < |stream|
      invariant 0 <= i <= |stream|
      invariant Run(old(file.contents), stream[..i], dates[..i]) == Outcome(file.contents, actions, None)
    {
      RunLast(old(file.contents), stream, dates, i);
      var acts, e := HandleSubmission(file, stream[i], dates[i]);
      actions := actions + acts;
      if e.Some? {
        raised := e;
        RunStops(old(file.contents), stream, dates, i + 1);
        return;
      }
      i := i + 1;
    }
    assert stream[..i] == stream && dates[..i] == dates;
  }

  /** The script: `initialize_file()` at import time, then the loop. */
  method StartBot(file: ActivityFile, stream: seq<Submission>, dates: seq<string>)
    returns (actions: seq<Action>, raised: Option<ReadError>)
    requires |dates| == |stream|
    modifies file
    ensures var start := if old(file.contents).None? then Some([Header]) else old(file.contents);
      Outcome(file.contents, actions, raised) == Run(start, stream, dates)
  {
    file.InitializeFile();
    actions, raised := MonitorSubreddit(file, stream, dates);
  }
}
