/**
 Cron job records: how they are created from a request and when they run next. The cron crate is a
 function from a normalised expression and an instant to the next matching instant.
 */
module CronJobs {
  import opened CronStore
  import opened Wrappers

  /** The next instant after the given one that matches a normalised cron expression. */
  type Schedules = (string, int) -> Option<int>

  /** What the cron crate promises: the next instant is strictly later. */
  ghost predicate StrictlyLater(next: Schedules) {
    forall e, t :: next(e, t).Some? ==> next(e, t).value > t
  }

  const ONE_SHOT := "__at__"
  const WEBHOOK := "__webhook__"

  predicate IsSpace(c: char) {
    c == ' ' || c == '\t' || c == '\n' || c == '\r'
  }

  function TrimStart(s: string): string {
    if s != "" && IsSpace(s[0]) then TrimStart(s[1..]) else s
  }

  function TrimEnd(s: string): string {
    if s != "" && IsSpace(s[|s| - 1]) then TrimEnd(s[..|s| - 1]) else s
  }

  /** Number of maximal runs of non-space characters, given whether a run is already open. */
  function FieldCount(s: string, open: bool): nat {
    if s == "" then 0
    else if IsSpace(s[0]) then FieldCount(s[1..], false)
    else (if open then 0 else 1) + FieldCount(s[1..], true)
  }

  /** Five fields get a seconds field in front, six are taken as they are, anything else is refused. */
  function Normalize(expression: string): Option<string> {
    var trimmed := TrimEnd(TrimStart(expression));
    var n := FieldCount(trimmed, false);
    if n == 5 then Some("0 " + trimmed) else if n == 6 then Some(trimmed) else None
  }

  /** An expression without any space is a single field and never a cron schedule. */
  lemma OneWordIsNoSchedule(s: string)
    requires s != "" && forall i :: 0 <= i < |s| ==> !IsSpace(s[i])
    ensures Normalize(s) == None
  {
    OneWordCount(s, false);
  }

  lemma {:induction false} OneWordCount(s: string, open: bool)
    requires forall i :: 0 <= i < |s| ==> !IsSpace(s[i])
    ensures FieldCount(s, open) == if s == "" || open then 0 else 1
  {
    if s != "" {
      OneWordCount(s[1..], true);
    }
  }

  // ----- what the expression becomes -----

  /** The words of the text, `open` being the part of a word already read. */
  function Words(s: string, open: string): seq<string> {
    if s == "" then if open == "" then [] else [open]
    else if IsSpace(s[0]) then (if open == "" then [] else [open]) + Words(s[1..], "")
    else Words(s[1..], open + [s[0]])
  }

  /** `t` is the text without the white space around it. */
  ghost predicate Trimmed(s: string, t: string) {
    && (t != "" ==> !IsSpace(t[0]) && !IsSpace(t[|t| - 1]))
    && exists pre: string, post: string :: s == pre + t + post && forall c :: c in pre + post ==> IsSpace(c)
  }

  lemma {:induction false} WordCount(s: string, open: string)
    ensures |Words(s, open)| == FieldCount(s, open != "") + if open == "" then 0 else 1
  {
    if s != "" {
      WordCount(s[1..], if IsSpace(s[0]) then "" else open + [s[0]]);
    }
  }

  lemma {:induction false} TrimStartIs(s: string) returns (pre: string)
    ensures s == pre + TrimStart(s) && forall c :: c in pre ==> IsSpace(c)
    ensures TrimStart(s) != "" ==> !IsSpace(TrimStart(s)[0])
    ensures Words(TrimStart(s), "") == Words(s, "")
  {
    if s != "" && IsSpace(s[0]) {
      var rest := TrimStartIs(s[1..]);
      pre := [s[0]] + rest;
    } else {
      pre := "";
    }
  }

  lemma {:induction false} TrailingSpace(s: string, c: char, open: string)
    requires IsSpace(c)
    ensures Words(s + [c], open) == Words(s, open)
  {
    if s == "" {
      assert (s + [c])[1..] == "";
    } else {
      assert (s + [c])[1..] == s[1..] + [c];
      TrailingSpace(s[1..], c, if IsSpace(s[0]) then "" else open + [s[0]]);
    }
  }

  lemma {:induction false} TrimEndIs(s: string) returns (post: string)
    ensures s == TrimEnd(s) + post && forall c :: c in post ==> IsSpace(c)
    ensures TrimEnd(s) != "" ==> !IsSpace(TrimEnd(s)[|TrimEnd(s)| - 1])
    ensures Words(TrimEnd(s), "") == Words(s, "")
  {
    if s != "" && IsSpace(s[|s| - 1]) {
      var init, c := s[..|s| - 1], s[|s| - 1];
      var rest := TrimEndIs(init);
      assert s == init + [c];
      TrailingSpace(init, c, "");
      post := rest + [c];
    } else {
      post := "";
    }
  }

  lemma TrimIs(s: string) returns (t: string)
    ensures t == TrimEnd(TrimStart(s)) && Trimmed(s, t) && Words(t, "") == Words(s, "")
  {
    var pre := TrimStartIs(s);
    var post := TrimEndIs(TrimStart(s));
    t := TrimEnd(TrimStart(s));
    assert s == pre + t + post;
    if t != "" {
      assert TrimStart(s)[0] == t[0];
    }
  }

  /** Exactly the expressions of five or six words are accepted. Without the white space around them, those
      of six words are taken as they are and those of five get the word `0` in front. */
  lemma NormalizeIs(s: string) returns (t: string)
    ensures Trimmed(s, t)
    ensures Normalize(s) ==
            if |Words(s, "")| == 5 then Some("0 " + t) else if |Words(s, "")| == 6 then Some(t) else None
    ensures Normalize(s).Some? ==>
              Words(Normalize(s).value, "") == (if |Words(s, "")| == 5 then ["0"] else []) + Words(s, "")
  {
    t := TrimIs(s);
    WordCount(t, "");
    ZeroInFront(t);
  }

  lemma ZeroInFront(t: string)
    ensures Words("0 " + t, "") == ["0"] + Words(t, "")
  {
    assert ("0 " + t)[1..] == " " + t && (" " + t)[1..] == t;
    assert "" + ['0'] == "0";
    assert Words("0 " + t, "") == Words(" " + t, "0");
  }

  function IsOneShot(job: CronJob): bool {
    job.schedule == ONE_SHOT
  }

  function NextRun(next: Schedules, job: CronJob, after: int): Option<int> {
    if IsOneShot(job) then if job.at.Some? && job.at.value > after then job.at else None
    else match Normalize(job.schedule)
      case None => None
      case Some(normalized) => next(normalized, after)
  }

  /** The next run lies strictly in the future, for every kind of job; webhook-only jobs have none. */
  lemma NextRunIsLater(next: Schedules, job: CronJob, after: int)
    requires StrictlyLater(next)
    ensures NextRun(next, job, after).Some? ==> NextRun(next, job, after).value > after
    ensures job.schedule == WEBHOOK ==> NextRun(next, job, after) == None
  {
    if job.schedule == WEBHOOK {
      OneWordIsNoSchedule(WEBHOOK);
    }
  }

  /** When a job runs next: a one-shot at its time if that is ahead, any other by its five or six words. */
  lemma NextRunIs(next: Schedules, job: CronJob, after: int) returns (t: string)
    ensures Trimmed(job.schedule, t)
    ensures job.schedule == "__at__" ==>
              NextRun(next, job, after) == if job.at.Some? && job.at.value > after then job.at else None
    ensures job.schedule != "__at__" ==>
              NextRun(next, job, after) ==
              if |Words(job.schedule, "")| == 5 then next("0 " + t, after)
              else if |Words(job.schedule, "")| == 6 then next(t, after)
              else None
  {
    t := NormalizeIs(job.schedule);
  }

  datatype Request = Request(
    schedule: string,
    agentId: string,
    message: string,
    at: Option<int>,
    name: string,
    enabled: bool,
    webhookSecret: Option<string>)

  const MINUTE_MS := 60_000

  /** Create a job from a request. The clock is read for validation and again for the next run. `valid`
      says whether the cron crate parses a normalised expression. */
  function CreateJob(next: Schedules, valid: string -> bool, req: Request, id: string, now: int, later: int): Option<CronJob> {
    var schedule: Option<string> :=
      if req.at.Some? then
        if req.schedule != ONE_SHOT || req.at.value < now - MINUTE_MS then None else Some(ONE_SHOT)
      else if req.webhookSecret.Some? && req.schedule == WEBHOOK then Some(WEBHOOK)
      else if Normalize(req.schedule).Some? && valid(Normalize(req.schedule).value) then Some(req.schedule)
      else None;
    if schedule.None? then None
    else
      var job := CronJob(id, req.agentId, req.message, req.name, schedule.value, req.at, req.enabled, later, None, None, req.webhookSecret);
      Some(job.(nextRun := NextRun(next, job, later)))
  }

  /** A one-shot request is accepted up to a minute late, but the job gets a next run exactly when its
      time is still ahead; a created job has no `at` without being a one-shot, and the reverse. */
  lemma CreatedOneShot(next: Schedules, valid: string -> bool, req: Request, id: string, now: int, later: int)
    requires now <= later
    ensures req.at.Some? ==>
              var job := CreateJob(next, valid, req, id, now, later);
              && (job.Some? <==> req.schedule == ONE_SHOT && req.at.value >= now - MINUTE_MS)
              && (job.Some? ==> (job.value.nextRun.Some? <==> req.at.value > later) && IsOneShot(job.value))
    ensures req.at.None? && CreateJob(next, valid, req, id, now, later).Some? ==>
              !IsOneShot(CreateJob(next, valid, req, id, now, later).value)
  {
    if req.at.None? && req.schedule == ONE_SHOT {
      OneWordIsNoSchedule(ONE_SHOT);
    }
  }

  /** Which requests become jobs, and that a job carries over what was asked for. */
  lemma CreatedIff(next: Schedules, valid: string -> bool, req: Request, id: string, now: int, later: int) returns (t: string)
    ensures Trimmed(req.schedule, t)
    ensures CreateJob(next, valid, req, id, now, later).Some? <==>
            if req.at.Some? then req.schedule == "__at__" && req.at.value >= now - 60_000
            else || (req.webhookSecret.Some? && req.schedule == "__webhook__")
                 || (|Words(req.schedule, "")| == 5 && valid("0 " + t))
                 || (|Words(req.schedule, "")| == 6 && valid(t))
    ensures CreateJob(next, valid, req, id, now, later).Some? ==>
              var job := CreateJob(next, valid, req, id, now, later).value;
              && job.id == id && job.agentId == req.agentId && job.message == req.message && job.name == req.name
              && job.schedule == req.schedule && job.at == req.at && job.enabled == req.enabled
              && job.createdAt == later && job.lastRun == None && job.webhookSecret == req.webhookSecret
              && job.nextRun == NextRun(next, job, later)
  {
    t := NormalizeIs(req.schedule);
  }
}
