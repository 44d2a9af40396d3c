/** The OCB build worker: bounded automatic retries with capped exponential backoff, single-use
    manual retries, and an append-only log of attempts. */
module BuildWorker {
  import opened Wrappers
  import Texts

  // ---------- Backoff ----------

  /** A 64-bit number of nanoseconds. */
  newtype Duration = x: int | -0x8000_0000_0000_0000 <= x < 0x8000_0000_0000_0000

  const MINUTE: Duration := 60_000_000_000
  const LONGEST: Duration := 30 * MINUTE

  datatype Trigger = Automatic | Manual

  function Pow2(n: nat): nat {
    if n == 0 then 1 else 2 * Pow2(n - 1)
  }

  function Base(configured: Duration): int {
    if configured <= 0 then MINUTE as int else configured as int
  }

  /** The base, doubled so many times. */
  function Wait(configured: Duration, doublings: nat): int {
    Base(configured) * Pow2(doublings)
  }

  /** The wait after an automatic failure preceded by `count` automatic attempts. */
  function Backoff(configured: Duration, count: nat): int {
    if Wait(configured, count) > LONGEST as int then LONGEST as int else Wait(configured, count)
  }

  lemma WaitDoubles(configured: Duration, doublings: nat)
    ensures Wait(configured, doublings + 1) == 2 * Wait(configured, doublings)
    ensures Wait(configured, doublings) >= 1 && Wait(configured, 0) == Base(configured)
  {
    Pow2Positive(doublings);
    var base, p := Base(configured), Pow2(doublings);
    assert base * (2 * p) == 2 * (base * p);
    assert base * p >= 1;
  }

  /** The wait starts at the base, doubles until it reaches half an hour, and stays there. */
  lemma {:induction false} BackoffDoubles(configured: Duration, count: nat)
    ensures 0 < Backoff(configured, count) <= Backoff(configured, count + 1) <= LONGEST as int
    ensures configured <= 0 ==> Backoff(configured, 0) == 60_000_000_000
    ensures 0 < configured <= 1_800_000_000_000 ==> Backoff(configured, 0) == configured as int
    ensures configured > 1_800_000_000_000 ==> Backoff(configured, 0) == 1_800_000_000_000
    ensures Backoff(configured, count + 1) ==
      if 2 * Backoff(configured, count) > LONGEST as int then LONGEST as int else 2 * Backoff(configured, count)
  {
    WaitDoubles(configured, count);
    WaitDoubles(configured, 0);
    hide Wait;
  }

  lemma {:induction false} Pow2Positive(n: nat)
    ensures Pow2(n) >= 1
  {
    if n > 0 {
      Pow2Positive(n - 1);
    }
  }

  lemma {:induction false} CapStays(configured: Duration, i: nat, count: nat)
    requires i <= count && Wait(configured, i) >= LONGEST as int
    ensures Backoff(configured, count) == LONGEST as int
    decreases count - i
  {
    hide Wait;
    if i < count {
      WaitDoubles(configured, i);
      CapStays(configured, i + 1, count);
    }
  }

  /** Returns no time when another automatic try is not allowed; otherwise the completion time
      plus the backoff. All arithmetic on durations stays within 64 bits. */
  method AutomaticRetryAt(trigger: Trigger, automaticCount: nat, maxAutomatic: int, completedAt: int, configured: Duration)
    returns (at: Option<int>)
    ensures at == if trigger != Automatic || automaticCount + 1 >= maxAutomatic then None
                  else Some(completedAt + Backoff(configured, automaticCount))
  {
    if trigger != Automatic || automaticCount + 1 >= maxAutomatic {
      return None;
    }
    var backoff := configured;
    if backoff <= 0 {
      backoff := MINUTE;
    }
    WaitDoubles(configured, 0);
    hide Wait, Pow2;
    var i := 1;
    while i < automaticCount + 1
      invariant 1 <= i <= automaticCount + 1
      invariant backoff as int == Wait(configured, i - 1)
    {
      if backoff >= LONGEST {
        CapStays(configured, i - 1, automaticCount);
        return Some(completedAt + LONGEST as int);
      }
      WaitDoubles(configured, i - 1);
      backoff := backoff * 2;
      i := i + 1;
    }
    if backoff > LONGEST {
      backoff := LONGEST;
    }
    at := Some(completedAt + backoff as int);
  }

  // ---------- The log ----------

  datatype Inspection = Inspection(id: string, inspected: bool)

  datatype Attempt = Attempt(inspection: string, number: nat, trigger: Trigger, retry: Option<nat>, succeeded: bool,
                             startedAt: int, completedAt: int, nextRetryAt: Option<int>)

  /** A request for one more run after the named attempt; its position in the log identifies it. */
  datatype Retry = Retry(inspection: string, previous: nat, requestedAt: int)

  const ATTEMPT_LIMIT: nat := 10000
  const ARTIFACT_LIMIT: nat := 1000

  /** What a store lists, the newest up to a limit, oldest of them first. */
  function Newest<T>(items: seq<T>, limit: nat): seq<T> {
    if |items| <= limit then items else items[|items| - limit..]
  }

  lemma NewestSnoc<T>(items: seq<T>, limit: nat, last: T)
    ensures forall x :: x in Newest(items + [last], limit) ==> x == last || x in Newest(items, limit)
  {
    var all := items + [last];
    if |all| > limit {
      forall i | |all| - limit <= i < |all| && i < |items| ensures all[i] in Newest(items, limit) {
        assert all[i] == items[i];
        assert |items| > limit ==> items[i] == Newest(items, limit)[i - (|items| - limit)];
      }
    }
  }

  /** The attempts of one inspection, in the order they were recorded. */
  function Of(attempts: seq<Attempt>, inspection: string): seq<Attempt> {
    if attempts == [] then []
    else Of(attempts[..|attempts| - 1], inspection) +
         (if attempts[|attempts| - 1].inspection == inspection then [attempts[|attempts| - 1]] else [])
  }

  lemma {:induction false} OfMembers(attempts: seq<Attempt>, inspection: string)
    ensures forall a :: a in Of(attempts, inspection) <==> a in attempts && a.inspection == inspection
  {
    if attempts != [] {
      OfMembers(attempts[..|attempts| - 1], inspection);
    }
  }

  function Automatics(own: seq<Attempt>): nat {
    if own == [] then 0
    else Automatics(own[..|own| - 1]) + (if own[|own| - 1].trigger == Automatic then 1 else 0)
  }

  /** The limit on automatic attempts: as configured within 1 to 10, three when it is not. */
  function Clamped(configured: int): (maximum: int)
    ensures 1 <= maximum <= 10 && (1 <= configured <= 10 ==> maximum == configured)
    ensures (configured <= 0 ==> maximum == 3) && (configured > 10 ==> maximum == 10)
  {
    if configured <= 0 then 3 else if configured > 10 then 10 else configured
  }

  /** The history of one inspection: numbered without gaps, automatic attempts first, each
      automatic attempt due and each manual one authorized by a request naming its predecessor. */
  ghost predicate History(own: seq<Attempt>, inspection: string, maximum: int, retries: seq<Retry>) {
    && Numbered(own, inspection)
    && AutomaticFirst(own)
    && Automatics(own) <= maximum
    && (forall i | 0 <= i < |own| :: Authorized(own[i], i, inspection, retries))
    && (forall i :: 0 < i < |own| ==> Due(own[i - 1], own[i]))
  }

  ghost predicate Numbered(own: seq<Attempt>, inspection: string) {
    forall i | 0 <= i < |own| :: own[i].inspection == inspection && own[i].number == i + 1
  }

  ghost predicate AutomaticFirst(own: seq<Attempt>) {
    forall i, j | 0 <= i < j < |own| && own[j].trigger == Automatic :: own[i].trigger == Automatic
  }

  /** A manual attempt consumes a request that names its predecessor. */
  ghost predicate Authorized(a: Attempt, i: nat, inspection: string, retries: seq<Retry>) {
    match a.retry
    case None => a.trigger == Automatic
    case Some(r) => i > 0 && a.trigger == Manual && r < |retries| && retries[r].inspection == inspection && retries[r].previous == i
  }

  /** An automatic attempt waits for the time its predecessor set. */
  ghost predicate Due(before: Attempt, a: Attempt) {
    a.trigger == Automatic && before.nextRetryAt.Some? ==> a.startedAt >= before.nextRetryAt.value
  }

  ghost predicate SucceedsLast(own: seq<Attempt>) {
    forall i :: 0 <= i < |own| - 1 ==> !own[i].succeeded
  }

  ghost predicate Distinct<T>(items: seq<T>) {
    forall i, j :: 0 <= i < j < |items| ==> items[i] != items[j]
  }

  /** A retry request is consumed by at most one attempt of one inspection, and that attempt
      directly follows the one the request names. */
  lemma {:induction false} RetryConsumedOnce(attempts: seq<Attempt>, retries: seq<Retry>, maximum: int, a: Attempt, b: Attempt)
    requires forall inspection :: History(Of(attempts, inspection), inspection, maximum, retries)
    requires a in attempts && b in attempts && a.retry.Some? && a.retry == b.retry
    ensures a == b && a.retry.value < |retries|
    ensures exists p :: p in attempts && p.inspection == a.inspection && p.number == a.number - 1 == retries[a.retry.value].previous
  {
    OfMembers(attempts, a.inspection);
    OfMembers(attempts, b.inspection);
    hide Of, Automatics;
    var own := Of(attempts, a.inspection);
    assert a in own;
    var i: nat :| i < |own| && own[i] == a;
    var theirs := Of(attempts, b.inspection);
    assert b in theirs;
    var j: nat :| j < |theirs| && theirs[j] == b;
    assert History(own, a.inspection, maximum, retries) && History(theirs, b.inspection, maximum, retries);
    assert retries[a.retry.value].previous == i == j;
    assert own[i - 1] in own && own[i - 1].number == i;
  }

  /** The numbers of an inspection's attempts are exactly 1 up to their count, each used once. */
  lemma {:induction false} NumberedWithoutGaps(attempts: seq<Attempt>, retries: seq<Retry>, maximum: int, inspection: string, number: nat)
    requires History(Of(attempts, inspection), inspection, maximum, retries)
    ensures (exists a :: a in attempts && a.inspection == inspection && a.number == number) <==> 1 <= number <= |Of(attempts, inspection)|
    ensures forall a, b :: a in attempts && b in attempts && a.inspection == b.inspection == inspection && a.number == b.number ==> a == b
  {
    OfMembers(attempts, inspection);
    hide Of, Automatics;
    var own := Of(attempts, inspection);
    if 1 <= number <= |own| {
      assert own[number - 1] in own;
    }
    forall a, b | a in attempts && b in attempts && a.inspection == b.inspection == inspection && a.number == b.number ensures a == b {
      assert a in own && b in own;
      var i: nat :| i < |own| && own[i] == a;
      var j: nat :| j < |own| && own[j] == b;
    }
  }

  // ---------- Deciding what to do with one inspection ----------

  datatype Decision = Skip | Go(trigger: Trigger, retry: Option<nat>)

  /** The unconsumed request for an inspection that was made last; the first listed wins a tie.
      Listed are the positions of the requests, the newest first. */
  function Pending(listed: seq<nat>, retries: seq<Retry>, consumed: set<nat>, inspection: string): (found: Option<nat>)
    requires forall i :: 0 <= i < |listed| ==> listed[i] < |retries|
    ensures found.Some? ==> found.value in listed && found.value !in consumed && retries[found.value].inspection == inspection
    ensures found.Some? ==> forall r :: r in listed && r !in consumed && retries[r].inspection == inspection ==>
      retries[r].requestedAt <= retries[found.value].requestedAt
    ensures found == None ==> forall r :: r in listed ==> r in consumed || retries[r].inspection != inspection
  {
    if listed == [] then None
    else
      var last := listed[|listed| - 1];
      var best := Pending(listed[..|listed| - 1], retries, consumed, inspection);
      if last !in consumed && retries[last].inspection == inspection &&
         (best == None || retries[last].requestedAt > retries[best.value].requestedAt)
      then Some(last) else best
  }

  function Decide(prior: seq<Attempt>, request: Option<nat>, retries: seq<Retry>, now: int, maximum: int): Decision
    requires request.Some? ==> request.value < |retries|
  {
    if prior == [] then Go(Automatic, None)
    else
      var latest := prior[|prior| - 1];
      if request.Some? && retries[request.value].previous == latest.number then Go(Manual, request)
      else if latest.trigger == Manual || Automatics(prior) >= maximum || (latest.nextRetryAt.Some? && now < latest.nextRetryAt.value) then Skip
      else Go(Automatic, None)
  }

  ghost predicate Suffix<T>(part: seq<T>, whole: seq<T>) {
    |part| <= |whole| && part == whole[|whole| - |part|..]
  }

  lemma {:induction false} OfAppend(attempts: seq<Attempt>, a: Attempt, inspection: string)
    ensures Of(attempts + [a], inspection) == Of(attempts, inspection) + (if a.inspection == inspection then [a] else [])
  {
    assert (attempts + [a])[..|attempts|] == attempts;
  }

  lemma AutomaticsAppend(own: seq<Attempt>, a: Attempt)
    ensures Automatics(own + [a]) == Automatics(own) + (if a.trigger == Automatic then 1 else 0)
  {
    assert (own + [a])[..|own|] == own;
  }

  lemma {:induction false} OfConcat(first: seq<Attempt>, rest: seq<Attempt>, inspection: string)
    ensures Of(first + rest, inspection) == Of(first, inspection) + Of(rest, inspection)
  {
    if rest == [] {
      assert first + rest == first;
    } else {
      var n := |rest| - 1;
      OfConcat(first, rest[..n], inspection);
      assert (first + rest)[..|first| + n] == first + rest[..n];
    }
  }

  lemma OfSuffix(attempts: seq<Attempt>, from: nat, inspection: string)
    requires from <= |attempts|
    ensures Suffix(Of(attempts[from..], inspection), Of(attempts, inspection))
  {
    OfConcat(attempts[..from], attempts[from..], inspection);
    assert attempts == attempts[..from] + attempts[from..];
  }

  /** Recording the decided attempt under the next number keeps the history of its inspection. */
  lemma {:induction false} HistoryExtends(own: seq<Attempt>, inspection: string, maximum: int, retries: seq<Retry>,
                                          request: Option<nat>, now: int, a: Attempt)
    requires History(own, inspection, maximum, retries) && maximum >= 1
    requires request.Some? ==> request.value < |retries| && retries[request.value].inspection == inspection
    requires Decide(own, request, retries, now, maximum) == Go(a.trigger, a.retry)
    requires a.inspection == inspection && a.number == |own| + 1 && a.startedAt == now
    ensures History(own + [a], inspection, maximum, retries)
  {
    AutomaticsAppend(own, a);
    if own == [] {
      FirstFits(inspection, retries, request, now, maximum, a);
    } else {
      DecidedFits(own, inspection, retries, request, now, maximum, a);
    }
    hide Automatics, Authorized, Due, Decide;
    var next := own + [a];
    assert next[|own|] == a && forall i | 0 <= i < |own| :: next[i] == own[i];
  }

  lemma FirstFits(inspection: string, retries: seq<Retry>, request: Option<nat>, now: int, maximum: int, a: Attempt)
    requires request.Some? ==> request.value < |retries|
    requires Decide([], request, retries, now, maximum) == Go(a.trigger, a.retry)
    ensures Automatics([]) == 0 && Authorized(a, 0, inspection, retries)
  {
  }

  /** What is decided after earlier attempts fits behind them. */
  lemma DecidedFits(own: seq<Attempt>, inspection: string, retries: seq<Retry>, request: Option<nat>, now: int, maximum: int, a: Attempt)
    requires own != [] && Numbered(own, inspection)
    requires request.Some? ==> request.value < |retries| && retries[request.value].inspection == inspection
    requires Decide(own, request, retries, now, maximum) == Go(a.trigger, a.retry)
    requires a.startedAt == now
    ensures Authorized(a, |own|, inspection, retries) && Due(own[|own| - 1], a)
    ensures a.trigger == Automatic ==> own[|own| - 1].trigger == Automatic && Automatics(own) < maximum
  {
  }

  lemma {:induction false} SuffixAppend(attempts: seq<Attempt>, a: Attempt, inspection: string)
    ensures forall part :: Suffix(part, Of(attempts, inspection)) ==>
      Suffix(if inspection == a.inspection then part + [a] else part, Of(attempts + [a], inspection))
  {
    OfAppend(attempts, a, inspection);
  }

  function PriorOf(listed: map<string, seq<Attempt>>, inspection: string): seq<Attempt> {
    if inspection in listed then listed[inspection] else []
  }

  /** The listing and the finished inspections after an attempt was recorded, or none. */
  function Listed(listed: map<string, seq<Attempt>>, inspection: string, recorded: Option<Attempt>): map<string, seq<Attempt>> {
    if recorded.Some? then listed[inspection := PriorOf(listed, inspection) + [recorded.value]] else listed
  }

  function Finished(done: set<string>, inspection: string, recorded: Option<Attempt>): set<string> {
    if recorded.Some? && recorded.value.succeeded then done + {inspection} else done
  }

  /** The listing holds the newest attempts of every inspection. */
  ghost predicate Sees(listed: map<string, seq<Attempt>>, attempts: seq<Attempt>) {
    forall inspection :: Suffix(PriorOf(listed, inspection), Of(attempts, inspection))
  }

  /** The listing is complete. */
  ghost predicate SeesAll(listed: map<string, seq<Attempt>>, attempts: seq<Attempt>) {
    forall inspection :: PriorOf(listed, inspection) == Of(attempts, inspection)
  }

  lemma SeesAppend(listed: map<string, seq<Attempt>>, attempts: seq<Attempt>, a: Attempt)
    requires Sees(listed, attempts)
    ensures Sees(listed[a.inspection := PriorOf(listed, a.inspection) + [a]], attempts + [a])
    ensures SeesAll(listed, attempts) ==> SeesAll(listed[a.inspection := PriorOf(listed, a.inspection) + [a]], attempts + [a])
  {
    hide Suffix, Of;
    if SeesAll(listed, attempts) {
      forall inspection
        ensures PriorOf(listed[a.inspection := PriorOf(listed, a.inspection) + [a]], inspection) == Of(attempts + [a], inspection)
      {
        OfAppend(attempts, a, inspection);
        if inspection != a.inspection { assert Of(attempts + [a], inspection) == Of(attempts, inspection); }
      }
    }
    forall inspection
      ensures Suffix(PriorOf(listed[a.inspection := PriorOf(listed, a.inspection) + [a]], inspection), Of(attempts + [a], inspection))
    {
      SuffixAppend(attempts, a, inspection);
    }
  }

  lemma SeesListed(attempts: seq<Attempt>, from: nat, listed: map<string, seq<Attempt>>)
    requires from <= |attempts|
    requires forall inspection :: PriorOf(listed, inspection) == Of(attempts[from..], inspection)
    ensures Sees(listed, attempts)
  {
    forall inspection ensures Suffix(PriorOf(listed, inspection), Of(attempts, inspection)) {
      OfSuffix(attempts, from, inspection);
    }
  }

  lemma {:induction false} AutomaticsOfSuffix(prior: seq<Attempt>, own: seq<Attempt>)
    requires Suffix(prior, own)
    ensures Automatics(prior) <= Automatics(own)
  {
    if prior != [] { AutomaticsOfSuffix(prior[..|prior| - 1], own[..|own| - 1]); }
  }

  /** What is skipped for the newest attempts is skipped for all of them. */
  lemma SkipOfSuffix(prior: seq<Attempt>, own: seq<Attempt>, request: Option<nat>, retries: seq<Retry>, now: int, maximum: int)
    requires Suffix(prior, own) && (request.Some? ==> request.value < |retries|)
    requires Decide(prior, request, retries, now, maximum) == Skip
    ensures Decide(own, request, retries, now, maximum) == Skip
  {
    AutomaticsOfSuffix(prior, own);
  }

  /** What processing an inspection did. Unless a store write or a receipt failed, it recorded an
      attempt exactly when one was decided; the attempt carries the next number, the decided
      trigger and request, and the next retry time of an automatic failure. */
  ghost predicate Processed(inspection: string, prior: seq<Attempt>, request: Option<nat>, retries: seq<Retry>, now: int, maximum: int,
                            backoff: Duration, ok: bool, recorded: Option<Attempt>,
                            before: seq<Attempt>, after: seq<Attempt>, was: seq<string>, artifacts: seq<string>)
    requires request.Some? ==> request.value < |retries|
  {
    match recorded
    case None =>
      && after == before
      && (artifacts == was || (!ok && artifacts == was + [inspection]))
      && (ok ==> Decide(prior, request, retries, now, maximum) == Skip)
    case Some(a) =>
      && ok && after == before + [a] && prior == Of(before, inspection)
      && artifacts == was + (if a.succeeded then [inspection] else [])
      && a.inspection == inspection && a.number == |prior| + 1
      && Decide(prior, request, retries, now, maximum) == Go(a.trigger, a.retry)
      && a.startedAt == now <= a.completedAt
      && a.nextRetryAt == (if a.succeeded || a.trigger != Automatic || Automatics(prior) + 1 >= maximum then None
                           else Some(a.completedAt + Backoff(backoff, Automatics(prior))))
  }

  // ---------- The invariant of the log ----------

  /** In every reachable state each inspection has a proper history, requests name distinct failed
      attempts, and a success is the last attempt as long as its artifact is listed. */
  ghost predicate ValidLog(attempts: seq<Attempt>, artifacts: seq<string>, retries: seq<Retry>, maximum: int) {
    && maximum >= 1
    && (forall inspection :: History(Of(attempts, inspection), inspection, maximum, retries))
    && (forall r, q :: 0 <= r < q < |retries| ==> retries[r].inspection != retries[q].inspection || retries[r].previous != retries[q].previous)
    && (forall r | 0 <= r < |retries| :: NamesFailed(attempts, retries[r]))
    && (forall a :: a in attempts && a.succeeded ==> a.inspection in artifacts && a.nextRetryAt == None)
    && Distinct(artifacts)
    && (forall inspection :: inspection in Newest(artifacts, ARTIFACT_LIMIT) ==> SucceedsLast(Of(attempts, inspection)))
  }

  ghost predicate NamesFailed(attempts: seq<Attempt>, retry: Retry) {
    exists a :: a in attempts && a.inspection == retry.inspection && a.number == retry.previous && !a.succeeded
  }

  ghost predicate NoSuccess(attempts: seq<Attempt>, inspection: string) {
    forall a :: a in attempts && a.inspection == inspection ==> !a.succeeded
  }

  lemma {:induction false} ArtifactKeeps(attempts: seq<Attempt>, artifacts: seq<string>, retries: seq<Retry>, maximum: int, inspection: string)
    requires ValidLog(attempts, artifacts, retries, maximum) && inspection !in artifacts
    ensures ValidLog(attempts, artifacts + [inspection], retries, maximum) && NoSuccess(attempts, inspection)
  {
    NewestSnoc(artifacts, ARTIFACT_LIMIT, inspection);
    OfMembers(attempts, inspection);
    assert SucceedsLast(Of(attempts, inspection)) by {
      forall i | 0 <= i < |Of(attempts, inspection)| ensures !Of(attempts, inspection)[i].succeeded {
        assert Of(attempts, inspection)[i] in attempts;
      }
    }
    hide History, Of, SucceedsLast, NamesFailed, Newest;
  }

  lemma HistoriesKeep(attempts: seq<Attempt>, retries: seq<Retry>, maximum: int, request: Option<nat>, a: Attempt)
    requires forall inspection :: History(Of(attempts, inspection), inspection, maximum, retries)
    requires maximum >= 1 && a.number == |Of(attempts, a.inspection)| + 1
    requires request.Some? ==> request.value < |retries| && retries[request.value].inspection == a.inspection
    requires Decide(Of(attempts, a.inspection), request, retries, a.startedAt, maximum) == Go(a.trigger, a.retry)
    ensures forall inspection :: History(Of(attempts + [a], inspection), inspection, maximum, retries)
  {
    hide History, Decide, Of;
    HistoryExtends(Of(attempts, a.inspection), a.inspection, maximum, retries, request, a.startedAt, a);
    forall inspection ensures History(Of(attempts + [a], inspection), inspection, maximum, retries) {
      OfAppend(attempts, a, inspection);
      if inspection != a.inspection { assert Of(attempts + [a], inspection) == Of(attempts, inspection); }
    }
  }

  lemma SuccessKeeps(attempts: seq<Attempt>, a: Attempt, inspection: string)
    requires SucceedsLast(Of(attempts, inspection)) && (inspection == a.inspection ==> NoSuccess(attempts, inspection))
    ensures SucceedsLast(Of(attempts + [a], inspection))
  {
    OfAppend(attempts, a, inspection);
    OfMembers(attempts, inspection);
    if inspection != a.inspection { assert Of(attempts + [a], inspection) == Of(attempts, inspection); }
  }

  lemma NamedStays(attempts: seq<Attempt>, a: Attempt, retries: seq<Retry>)
    requires forall r | 0 <= r < |retries| :: NamesFailed(attempts, retries[r])
    ensures forall r | 0 <= r < |retries| :: NamesFailed(attempts + [a], retries[r])
  {
    forall r | 0 <= r < |retries| ensures NamesFailed(attempts + [a], retries[r]) {
      assert NamesFailed(attempts, retries[r]);
      var b :| b in attempts && b.inspection == retries[r].inspection && b.number == retries[r].previous && !b.succeeded;
      assert b in attempts + [a];
    }
  }

  /** A number that is free in the log shows that the prior attempts were listed completely, and
      then recording the attempt keeps the log valid. */
  lemma {:induction false} RecordKeeps(attempts: seq<Attempt>, artifacts: seq<string>, retries: seq<Retry>, maximum: int,
                                       prior: seq<Attempt>, request: Option<nat>, a: Attempt)
    requires ValidLog(attempts, artifacts, retries, maximum)
    requires Suffix(prior, Of(attempts, a.inspection)) && a.number == |prior| + 1
    requires request.Some? ==> request.value < |retries| && retries[request.value].inspection == a.inspection
    requires Decide(prior, request, retries, a.startedAt, maximum) == Go(a.trigger, a.retry)
    requires a.succeeded ==> a.inspection in artifacts && a.nextRetryAt == None
    requires a.inspection in Newest(artifacts, ARTIFACT_LIMIT) ==> NoSuccess(attempts, a.inspection)
    requires forall b :: b in attempts ==> b.inspection != a.inspection || b.number != a.number
    ensures prior == Of(attempts, a.inspection)
    ensures ValidLog(attempts + [a], artifacts, retries, maximum)
  {
    hide History, Decide, Of, Suffix, NoSuccess, SucceedsLast, Distinct, NamesFailed, Newest;
    NumberFree(attempts, retries, maximum, prior, a);
    HistoriesKeep(attempts, retries, maximum, request, a);
    NamedStays(attempts, a, retries);
    forall inspection | inspection in Newest(artifacts, ARTIFACT_LIMIT) ensures SucceedsLast(Of(attempts + [a], inspection)) {
      SuccessKeeps(attempts, a, inspection);
    }
  }

  lemma {:induction false} NumberFree(attempts: seq<Attempt>, retries: seq<Retry>, maximum: int, prior: seq<Attempt>, a: Attempt)
    requires History(Of(attempts, a.inspection), a.inspection, maximum, retries)
    requires Suffix(prior, Of(attempts, a.inspection)) && a.number == |prior| + 1
    requires forall b :: b in attempts ==> b.inspection != a.inspection || b.number != a.number
    ensures prior == Of(attempts, a.inspection)
  {
    var own := Of(attempts, a.inspection);
    OfMembers(attempts, a.inspection);
    assert |prior| < |own| ==> own[|prior|] in attempts && own[|prior|].number == a.number;
  }

  // ---------- A pass ----------

  /** What a pass works on: the inspections it goes over, the logs when it starts, and the limit on
      automatic attempts and the configured backoff. */
  datatype Start = Start(inspections: seq<Inspection>, attempts: seq<Attempt>, artifacts: seq<string>, retries: seq<Retry>,
                         maximum: int, backoff: Duration)
  {
    /** The inspections with a listed artifact. */
    ghost function Done(): set<string> {
      set id | id in Newest(artifacts, ARTIFACT_LIMIT)
    }

    ghost function Consumed(): set<nat> {
      set a | a in Newest(attempts, ATTEMPT_LIMIT) && a.retry.Some? :: a.retry.value
    }

    ghost function Request(inspection: string): (request: Option<nat>)
      ensures request.Some? ==> request.value < |retries| && retries[request.value].inspection == inspection
    {
      Pending(NewestFirst(|retries|), retries, Consumed(), inspection)
    }

    /** The inspection is to be attempted at this time. */
    ghost predicate Runs(inspection: string, now: int) {
      && inspection !in Done()
      && Decide(Of(attempts, inspection), Request(inspection), retries, now, maximum) != Skip
    }

    /** The attempt is the one to be made at this time. */
    ghost predicate Due(a: Attempt, now: int) {
      var own := Of(attempts, a.inspection);
      && Decide(own, Request(a.inspection), retries, now, maximum) == Go(a.trigger, a.retry)
      && a.number == |own| + 1 && a.startedAt == now <= a.completedAt
      && a.nextRetryAt == (if a.succeeded || a.trigger != Automatic || Automatics(own) + 1 >= maximum then None
                           else Some(a.completedAt + Backoff(backoff, Automatics(own))))
    }
  }

  /** The positions of the newest of n retry requests, the newest first, up to the listing limit. */
  function NewestFirst(n: nat): (listed: seq<nat>)
    ensures forall i :: 0 <= i < |listed| ==> listed[i] < n
  {
    seq(if n <= ATTEMPT_LIMIT then n else ATTEMPT_LIMIT, i requires 0 <= i < n => n - 1 - i)
  }

  /** The last attempt of an inspection was a success. It is attempted again exactly when its artifact
      is no longer among the listed ones, the success was an automatic attempt, and automatic
      attempts are left. */
  lemma {:induction false} FinishedRunsIff(start: Start, inspection: string, now: int)
    requires ValidLog(start.attempts, start.artifacts, start.retries, start.maximum)
    requires var own := Of(start.attempts, inspection); own != [] && own[|own| - 1].succeeded
    ensures inspection in start.artifacts
    ensures var own := Of(start.attempts, inspection);
      start.Runs(inspection, now) <==>
        && inspection !in Newest(start.artifacts, ARTIFACT_LIMIT)
        && own[|own| - 1].trigger == Automatic && Automatics(own) < start.maximum
  {
    var own := Of(start.attempts, inspection);
    var last, request := own[|own| - 1], start.Request(inspection);
    OfMembers(start.attempts, inspection);
    assert last in own;
    if request.Some? {
      NotNamed(start.attempts, start.artifacts, start.retries, start.maximum, last, request.value);
    }
    hide Of, Automatics, History, Newest;
  }

  /** No retry request names a success. */
  lemma {:induction false} NotNamed(attempts: seq<Attempt>, artifacts: seq<string>, retries: seq<Retry>, maximum: int, a: Attempt, r: nat)
    requires ValidLog(attempts, artifacts, retries, maximum)
    requires a in attempts && a.succeeded && r < |retries| && retries[r].inspection == a.inspection
    ensures retries[r].previous != a.number
  {
    hide History, Of;
    assert NamesFailed(attempts, retries[r]);
    var b :| b in attempts && b.inspection == retries[r].inspection && b.number == retries[r].previous && !b.succeeded;
    NumberedWithoutGaps(attempts, retries, maximum, a.inspection, a.number);
  }

  // ---------- What a pass comes to ----------

  /** The attempt has the greatest number of its inspection. */
  ghost predicate NewestAttempt(attempts: seq<Attempt>, inspection: string, a: Attempt) {
    && a in attempts && a.inspection == inspection
    && forall b :: b in attempts && b.inspection == inspection ==> b.number <= a.number
  }

  ghost predicate Unconsumed(attempts: seq<Attempt>, r: nat) {
    forall b :: b in attempts ==> b.retry != Some(r)
  }

  /** The request for the inspection made last of those that no attempt has consumed. */
  ghost predicate LatestRequest(attempts: seq<Attempt>, retries: seq<Retry>, inspection: string, r: nat) {
    && r < |retries| && retries[r].inspection == inspection && Unconsumed(attempts, r)
    && forall q: nat :: q < |retries| && retries[q].inspection == inspection && Unconsumed(attempts, q) ==>
         retries[q].requestedAt < retries[r].requestedAt || (retries[q].requestedAt == retries[r].requestedAt && q <= r)
  }

  /** The latest request names the newest attempt. */
  ghost predicate Authorised(start: Start, inspection: string, r: nat) {
    && LatestRequest(start.attempts, start.retries, inspection, r)
    && exists a :: NewestAttempt(start.attempts, inspection, a) && start.retries[r].previous == a.number
  }

  function AutomaticAttempts(attempts: seq<Attempt>, inspection: string): set<int> {
    set i: int | 0 <= i < |attempts| && attempts[i].inspection == inspection && attempts[i].trigger == Automatic :: i
  }

  /** There is no attempt yet, or the newest one was automatic, automatic attempts are left and its time
      has come. */
  ghost predicate AutomaticDue(start: Start, inspection: string, now: int) {
    || (forall a :: a in start.attempts ==> a.inspection != inspection)
    || exists a :: NewestAttempt(start.attempts, inspection, a) && a.trigger == Automatic
                   && |AutomaticAttempts(start.attempts, inspection)| < start.maximum
                   && (a.nextRetryAt.Some? ==> a.nextRetryAt.value <= now)
  }

  lemma AutomaticSnoc(before: seq<Attempt>, last: Attempt, inspection: string)
    ensures |AutomaticAttempts(before + [last], inspection)| ==
      |AutomaticAttempts(before, inspection)| + if last.inspection == inspection && last.trigger == Automatic then 1 else 0
  {
    var some, k := AutomaticAttempts(before, inspection), |before|;
    OneMoreAutomatic(before, last, inspection);
    hide AutomaticAttempts;
    if last.inspection == inspection && last.trigger == Automatic { assert |some + {k}| == |some| + 1; }
  }

  lemma OneMoreAutomatic(before: seq<Attempt>, last: Attempt, inspection: string)
    ensures |before| !in AutomaticAttempts(before, inspection)
    ensures AutomaticAttempts(before + [last], inspection) ==
      if last.inspection == inspection && last.trigger == Automatic then AutomaticAttempts(before, inspection) + {|before|}
      else AutomaticAttempts(before, inspection)
  {
    var all := before + [last];
    assert all[|before|] == last && forall i :: 0 <= i < |before| ==> all[i] == before[i];
  }

  lemma {:induction false} AutomaticsCounted(attempts: seq<Attempt>, inspection: string)
    ensures |AutomaticAttempts(attempts, inspection)| == Automatics(Of(attempts, inspection))
  {
    if attempts == [] {
      assert AutomaticAttempts(attempts, inspection) == {};
    } else {
      var before, last := attempts[..|attempts| - 1], attempts[|attempts| - 1];
      assert attempts == before + [last];
      AutomaticsCounted(before, inspection);
      AutomaticSnoc(before, last, inspection);
      OfAppend(before, last, inspection);
      AutomaticsAppend(Of(before, inspection), last);
      hide AutomaticAttempts, Automatics, Of;
      assert Of(before, inspection) + [] == Of(before, inspection);
    }
  }

  /** The last attempt of an inspection is its newest one. */
  lemma {:induction false} LastIsNewest(start: Start, inspection: string)
    requires ValidLog(start.attempts, start.artifacts, start.retries, start.maximum)
    ensures var own := Of(start.attempts, inspection);
      && (own == [] <==> forall a :: a in start.attempts ==> a.inspection != inspection)
      && forall a :: NewestAttempt(start.attempts, inspection, a) <==> own != [] && a == own[|own| - 1]
  {
    var own := Of(start.attempts, inspection);
    OfMembers(start.attempts, inspection);
    assert Numbered(own, inspection);
    hide ValidLog, History, Of;
    if own != [] {
      var last := own[|own| - 1];
      assert last in own;
      forall b | b in start.attempts && b.inspection == inspection ensures b.number <= last.number && (b.number == last.number ==> b == last) {
        assert b in own;
        var i: nat :| i < |own| && own[i] == b;
      }
      forall a | NewestAttempt(start.attempts, inspection, a) ensures a == last { }
    } else {
      forall a | a in start.attempts ensures a.inspection != inspection { assert a !in own; }
    }
  }

  /** Among all requests, the newest listed first, the pending one is the latest that is unconsumed. */
  lemma {:induction false} PendingIsLatest(start: Start, inspection: string)
    requires |start.attempts| <= ATTEMPT_LIMIT && |start.retries| <= ATTEMPT_LIMIT
    ensures forall r: nat :: start.Request(inspection) == Some(r) <==> LatestRequest(start.attempts, start.retries, inspection, r)
  {
    var n := |start.retries|;
    var listed := NewestFirst(n);
    assert forall r: nat :: r in start.Consumed() <==> !Unconsumed(start.attempts, r);
    var at := PendingFirst(listed, start.retries, start.Consumed(), inspection);
    var found := start.Request(inspection);
    forall q: nat | q < n ensures q in listed { assert listed[n - 1 - q] == q; }
    hide Pending, Unconsumed;
    if found.Some? {
      forall q: nat | q < n && start.retries[q].inspection == inspection && q !in start.Consumed()
        ensures start.retries[q].requestedAt < start.retries[found.value].requestedAt
             || (start.retries[q].requestedAt == start.retries[found.value].requestedAt && q <= found.value)
      {
        assert listed[n - 1 - q] == q;
      }
    }
  }

  /** Nothing that could be pending as well and was made at the same time is listed before. */
  predicate FirstListed(listed: seq<nat>, retries: seq<Retry>, consumed: set<nat>, inspection: string, i: nat)
    requires i < |listed| && forall j :: 0 <= j < |listed| ==> listed[j] < |retries|
  {
    forall j | 0 <= j < i ::
      listed[j] in consumed || retries[listed[j]].inspection != inspection || retries[listed[j]].requestedAt != retries[listed[i]].requestedAt
  }

  lemma {:induction false} PendingFirst(listed: seq<nat>, retries: seq<Retry>, consumed: set<nat>, inspection: string) returns (i: nat)
    requires forall j :: 0 <= j < |listed| ==> listed[j] < |retries|
    ensures var found := Pending(listed, retries, consumed, inspection);
      found.Some? ==> i < |listed| && listed[i] == found.value && FirstListed(listed, retries, consumed, inspection, i)
  {
    i := 0;
    if listed != [] {
      var k := |listed| - 1;
      i := PendingFirst(listed[..k], retries, consumed, inspection);
      var best, found := Pending(listed[..k], retries, consumed, inspection), Pending(listed, retries, consumed, inspection);
      if found.Some? && !(best.Some? && found == best) {
        i := k;
        assert forall j :: 0 <= j < k ==> listed[j] in listed[..k];
      }
    }
  }

  /** What is decided for an inspection, from the logs alone. */
  lemma {:induction false} DecidedExactly(start: Start, inspection: string, now: int)
    requires ValidLog(start.attempts, start.artifacts, start.retries, start.maximum)
    requires |start.attempts| <= ATTEMPT_LIMIT && |start.retries| <= ATTEMPT_LIMIT
    ensures var decision := Decide(Of(start.attempts, inspection), start.Request(inspection), start.retries, now, start.maximum);
      && (forall r: nat :: Authorised(start, inspection, r) <==> decision == Go(Manual, Some(r)))
      && (decision == Go(Automatic, None) <==> AutomaticDue(start, inspection, now) && forall r: nat :: !Authorised(start, inspection, r))
      && (decision.Go? ==> decision == Go(Automatic, None) || exists r: nat :: decision == Go(Manual, Some(r)))
  {
    PendingIsLatest(start, inspection);
    LastIsNewest(start, inspection);
    AutomaticsCounted(start.attempts, inspection);
    hide Of, NewestAttempt, LatestRequest, Automatics, AutomaticAttempts, ValidLog;
    var own := Of(start.attempts, inspection);
    if own != [] {
      assert NewestAttempt(start.attempts, inspection, own[|own| - 1]);
    }
  }

  /** A failed automatic attempt that leaves another one sets the time for it. */
  function NextAfter(a: Attempt, backoff: Duration, earlier: nat, maximum: int): Option<int> {
    if a.succeeded || earlier + 1 >= maximum then None else Some(a.completedAt + Backoff(backoff, earlier))
  }

  /** The new attempts of an inspection are as authorised: one manual attempt that consumes the latest
      request when that names the newest attempt; else one automatic attempt when that is due; and
      none when neither holds or when its artifact is listed. */
  ghost predicate AsAuthorised(start: Start, attempts: seq<Attempt>, inspection: string, now: int)
    requires start.attempts <= attempts
  {
    var own := Of(attempts[|start.attempts|..], inspection);
    if inspection in Newest(start.artifacts, 1000) then own == []
    else if exists r: nat :: Authorised(start, inspection, r)
    then |own| == 1 && own[0].trigger == Manual && own[0].retry.Some? && Authorised(start, inspection, own[0].retry.value)
         && own[0].startedAt == now && own[0].nextRetryAt == None
    else if AutomaticDue(start, inspection, now)
    then |own| == 1 && own[0].trigger == Automatic && own[0].retry == None && own[0].startedAt == now
         && own[0].nextRetryAt == NextAfter(own[0], start.backoff, |AutomaticAttempts(start.attempts, inspection)|, start.maximum)
    else own == []
  }

  lemma {:induction false} PassAuthorised(start: Start, looked: seq<int>, attempts: seq<Attempt>, k: nat)
    requires ValidLog(start.attempts, start.artifacts, start.retries, start.maximum)
    requires |start.attempts| <= ATTEMPT_LIMIT && |start.retries| <= ATTEMPT_LIMIT
    requires DistinctIds(start.inspections) && k < |looked| == |start.inspections| && start.attempts <= attempts
    requires Exact(start, looked, attempts)
    requires start.Runs(start.inspections[k].id, looked[k]) ==> Attempted(start, attempts, start.inspections[k].id, looked[k])
    ensures AsAuthorised(start, attempts, start.inspections[k].id, looked[k])
  {
    hide *;
    var id, now := start.inspections[k].id, looked[k];
    if start.Runs(id, now) {
      RunAuthorised(start, attempts, id, now);
    } else {
      NotChosen(start, looked, k);
      NotNew(start, looked, attempts, id);
      IdleAuthorised(start, attempts, id, now);
    }
  }

  lemma NotNew(start: Start, looked: seq<int>, attempts: seq<Attempt>, inspection: string)
    requires Exact(start, looked, attempts) && !Chosen(start, looked, inspection)
    ensures Of(attempts[|start.attempts|..], inspection) == []
  {
    assert !New(start.attempts, attempts, inspection);
    OfNone(attempts[|start.attempts|..], inspection);
  }

  lemma IdleAuthorised(start: Start, attempts: seq<Attempt>, inspection: string, now: int)
    requires ValidLog(start.attempts, start.artifacts, start.retries, start.maximum) && start.attempts <= attempts
    requires |start.attempts| <= ATTEMPT_LIMIT && |start.retries| <= ATTEMPT_LIMIT
    requires !start.Runs(inspection, now) && Of(attempts[|start.attempts|..], inspection) == []
    ensures AsAuthorised(start, attempts, inspection, now)
  {
    DecidedExactly(start, inspection, now);
    assert inspection in start.Done() <==> inspection in Newest(start.artifacts, ARTIFACT_LIMIT);
    hide Of, Decide, Newest, Authorised, AutomaticDue;
  }

  /** The attempt to be made is the one that is authorised. */
  lemma DueAuthorised(start: Start, a: Attempt, now: int)
    requires ValidLog(start.attempts, start.artifacts, start.retries, start.maximum)
    requires |start.attempts| <= ATTEMPT_LIMIT && |start.retries| <= ATTEMPT_LIMIT
    requires start.Due(a, now)
    ensures a.startedAt == now
    ensures if exists r: nat :: Authorised(start, a.inspection, r)
            then a.trigger == Manual && a.retry.Some? && Authorised(start, a.inspection, a.retry.value) && a.nextRetryAt == None
            else && AutomaticDue(start, a.inspection, now) && a.trigger == Automatic && a.retry == None
                 && a.nextRetryAt == NextAfter(a, start.backoff, |AutomaticAttempts(start.attempts, a.inspection)|, start.maximum)
  {
    DecidedExactly(start, a.inspection, now);
    AutomaticsCounted(start.attempts, a.inspection);
    hide Authorised, AutomaticDue, Decide, Automatics, AutomaticAttempts, Backoff, ValidLog, Of;
  }

  lemma RunAuthorised(start: Start, attempts: seq<Attempt>, inspection: string, now: int)
    requires ValidLog(start.attempts, start.artifacts, start.retries, start.maximum) && start.attempts <= attempts
    requires |start.attempts| <= ATTEMPT_LIMIT && |start.retries| <= ATTEMPT_LIMIT
    requires start.Runs(inspection, now) && Attempted(start, attempts, inspection, now)
    ensures AsAuthorised(start, attempts, inspection, now)
  {
    hide ValidLog, Authorised, AutomaticDue, Decide, AutomaticAttempts, NextAfter, Start.Due;
    var more := attempts[|start.attempts|..];
    var a :| Of(more, inspection) == [a] && start.Due(a, now);
    OfMembers(more, inspection);
    assert [a][0] == a && a in [a];
    DueAuthorised(start, a, now);
    assert inspection in start.Done() <==> inspection in Newest(start.artifacts, ARTIFACT_LIMIT);
    hide Of, Newest;
  }

  lemma NotChosen(start: Start, looked: seq<int>, k: nat)
    requires DistinctIds(start.inspections) && k < |looked| == |start.inspections|
    requires !start.Runs(start.inspections[k].id, looked[k])
    ensures !Chosen(start, looked, start.inspections[k].id)
  {
    forall m | 0 <= m < |looked| && start.inspections[m].id == start.inspections[k].id ensures m == k { }
  }

  // ---------- More inspections than can be listed ----------

  function Named(i: nat): string {
    seq(i, _ => 'x')
  }

  function Built(i: nat): Attempt {
    Attempt(Named(i), 1, Automatic, None, true, 0, 0, None)
  }

  /** That many inspections were built, each at the first attempt. */
  function AllBuilt(n: nat): Start {
    Start([Inspection(Named(0), true)], seq(n, i requires 0 <= i < n => Built(i)), seq(n, i requires 0 <= i < n => Named(i)), [], 3, MINUTE)
  }

  lemma {:induction false} BuiltOnce(n: nat, inspection: string)
    ensures Of(AllBuilt(n).attempts, inspection) == if |inspection| < n && inspection == Named(|inspection|) then [Built(|inspection|)] else []
  {
    if n > 0 {
      assert AllBuilt(n).attempts[..n - 1] == AllBuilt(n - 1).attempts;
      BuiltOnce(n - 1, inspection);
      assert |Named(n - 1)| == n - 1;
    }
  }

  lemma BuiltHistory(n: nat, inspection: string)
    ensures History(Of(AllBuilt(n).attempts, inspection), inspection, AllBuilt(n).maximum, [])
    ensures SucceedsLast(Of(AllBuilt(n).attempts, inspection))
  {
    BuiltOnce(n, inspection);
    if |inspection| < n && inspection == Named(|inspection|) {
      assert [Built(|inspection|)][..0] == [];
      assert Automatics([Built(|inspection|)]) == 1;
    }
    hide Of;
  }

  lemma AllBuiltValid(n: nat)
    ensures var start := AllBuilt(n); ValidLog(start.attempts, start.artifacts, start.retries, start.maximum)
  {
    var start := AllBuilt(n);
    forall inspection ensures History(Of(start.attempts, inspection), inspection, start.maximum, []) && SucceedsLast(Of(start.attempts, inspection)) {
      BuiltHistory(n, inspection);
    }
    hide Of, History, SucceedsLast;
    forall i, j | 0 <= i < j < n ensures start.artifacts[i] != start.artifacts[j] { assert |Named(i)| == i && |Named(j)| == j; }
    forall a | a in start.attempts ensures a.inspection in start.artifacts {
      var i :| 0 <= i < n && start.attempts[i] == a;
      assert start.artifacts[i] == a.inspection;
    }
  }

  lemma FirstLeftOut(n: nat)
    requires n > ARTIFACT_LIMIT
    ensures Named(0) in AllBuilt(n).artifacts && Named(0) !in Newest(AllBuilt(n).artifacts, ARTIFACT_LIMIT)
  {
    var artifacts := AllBuilt(n).artifacts;
    assert artifacts[0] == Named(0);
    forall i | 1 <= i < n ensures artifacts[i] != Named(0) { assert |Named(i)| == i; }
    hide AllBuilt, Named;
  }

  /** With one artifact more than can be listed, the inspection built first is attempted again. */
  lemma {:induction false} UnlistedRunsAgain(now: int)
    ensures var start := AllBuilt(ARTIFACT_LIMIT + 1);
      && ValidLog(start.attempts, start.artifacts, start.retries, start.maximum)
      && Named(0) in start.artifacts && start.Runs(Named(0), now)
  {
    var n := ARTIFACT_LIMIT + 1;
    AllBuiltValid(n);
    FirstLeftOut(n);
    BuiltOnce(n, Named(0));
    assert AllBuilt(n).maximum == 3 && |Named(0)| == 0;
    assert Automatics([Built(0)]) == 1 by {
      assert [Built(0)][..0] == [];
    }
    assert Built(0).succeeded && Built(0).trigger == Automatic;
    hide AllBuilt, Named, Built, Of, ValidLog, Newest;
    FinishedRunsIff(AllBuilt(n), Named(0), now);
  }

  // ---------- The progress of a pass ----------

  ghost function Ids(inspections: seq<Inspection>): set<string> {
    set i | i in inspections :: i.id
  }

  ghost predicate Tried(attempts: seq<Attempt>, inspection: string) {
    exists a :: a in attempts && a.inspection == inspection
  }

  /** The inspection was attempted since. */
  ghost predicate New(before: seq<Attempt>, after: seq<Attempt>, inspection: string)
    requires before <= after
  {
    Tried(after[|before|..], inspection)
  }

  /** The attempts a pass added: of the given inspections, and of none with a listed artifact. */
  ghost predicate Added(start: Start, attempts: seq<Attempt>) {
    && start.attempts <= attempts
    && forall a :: a in attempts[|start.attempts|..] ==> a.inspection in Ids(start.inspections) && a.inspection !in start.Done()
  }

  /** One of the inspections looked at, at these times, was to be attempted. */
  ghost predicate Chosen(start: Start, looked: seq<int>, inspection: string)
    requires |looked| <= |start.inspections|
  {
    exists m :: 0 <= m < |looked| && start.inspections[m].id == inspection && start.Runs(inspection, looked[m])
  }

  /** The inspections attempted so far are exactly those that were to run when looked at. */
  ghost predicate Exact(start: Start, looked: seq<int>, attempts: seq<Attempt>) {
    && |looked| <= |start.inspections| && start.attempts <= attempts
    && forall id :: New(start.attempts, attempts, id) <==> Chosen(start, looked, id)
  }

  ghost predicate DistinctIds(inspections: seq<Inspection>) {
    forall i, j :: 0 <= i < j < |inspections| ==> inspections[i].id != inspections[j].id
  }

  /** An inspection that was to run when looked at has exactly one new attempt, the one to be made. */
  ghost predicate Attempted(start: Start, attempts: seq<Attempt>, inspection: string, now: int)
    requires start.attempts <= attempts
  {
    exists a :: Of(attempts[|start.attempts|..], inspection) == [a] && start.Due(a, now)
  }

  /** When no inspection is given twice, all that were to run so far were attempted once. */
  ghost predicate Singly(start: Start, looked: seq<int>, attempts: seq<Attempt>) {
    && |looked| <= |start.inspections| && start.attempts <= attempts
    && (DistinctIds(start.inspections) ==>
          forall m :: 0 <= m < |looked| && start.Runs(start.inspections[m].id, looked[m]) ==>
            Attempted(start, attempts, start.inspections[m].id, looked[m]))
  }

  /** The finished inspections include everything listed, and what else is finished was attempted. */
  ghost predicate Marked(start: Start, done: set<string>, artifacts: seq<string>, attempts: seq<Attempt>) {
    && start.attempts <= attempts && start.Done() <= done
    && (forall id :: id in Newest(artifacts, ARTIFACT_LIMIT) ==> id in done)
    && forall id :: id in done && id !in start.Done() ==> New(start.attempts, attempts, id)
  }

  ghost predicate Overview(start: Start, byInspection: map<string, seq<Attempt>>, attempts: seq<Attempt>) {
    && Sees(byInspection, attempts)
    && (|start.attempts| <= ATTEMPT_LIMIT ==> SeesAll(byInspection, attempts))
  }

  ghost predicate Pass(start: Start, looked: seq<int>, done: set<string>, artifacts: seq<string>, attempts: seq<Attempt>,
                       byInspection: map<string, seq<Attempt>>) {
    && start.artifacts <= artifacts
    && Added(start, attempts)
    && Exact(start, looked, attempts)
    && Marked(start, done, artifacts, attempts)
    && Overview(start, byInspection, attempts)
    && Singly(start, looked, attempts)
  }

  lemma NewAppend(before: seq<Attempt>, after: seq<Attempt>, a: Attempt, inspection: string)
    requires before <= after
    ensures New(before, after + [a], inspection) <==> New(before, after, inspection) || a.inspection == inspection
  {
    var more := after[|before|..];
    assert (after + [a])[|before|..] == more + [a];
    assert a in more + [a];
  }

  lemma AddedAppend(start: Start, attempts: seq<Attempt>, a: Attempt)
    requires Added(start, attempts) && a.inspection in Ids(start.inspections) && a.inspection !in start.Done()
    ensures Added(start, attempts + [a])
  {
    assert (attempts + [a])[|start.attempts|..] == attempts[|start.attempts|..] + [a];
  }

  lemma NotNewSame(before: seq<Attempt>, after: seq<Attempt>, inspection: string)
    requires before <= after && !New(before, after, inspection)
    ensures Of(after, inspection) == Of(before, inspection)
  {
    var more := after[|before|..];
    assert after == before + more;
    OfConcat(before, more, inspection);
    OfNone(more, inspection);
  }

  lemma ChosenSnoc(start: Start, looked: seq<int>, now: int, inspection: string)
    requires |looked| < |start.inspections|
    ensures Chosen(start, looked + [now], inspection) <==>
      Chosen(start, looked, inspection) || (start.inspections[|looked|].id == inspection && start.Runs(inspection, now))
  {
    var more := looked + [now];
    hide *;
    if Chosen(start, looked, inspection) {
      ChosenMore(start, looked, now, inspection);
    }
    if start.inspections[|looked|].id == inspection && start.Runs(inspection, now) {
      ChosenAt(start, more, |looked|, inspection);
    }
    if Chosen(start, more, inspection) {
      ChosenLess(start, looked, now, inspection);
    }
  }

  lemma ChosenAt(start: Start, looked: seq<int>, m: nat, inspection: string)
    requires m < |looked| <= |start.inspections| && start.inspections[m].id == inspection && start.Runs(inspection, looked[m])
    ensures Chosen(start, looked, inspection)
  {
  }

  lemma ChosenMore(start: Start, looked: seq<int>, now: int, inspection: string)
    requires |looked| < |start.inspections| && Chosen(start, looked, inspection)
    ensures Chosen(start, looked + [now], inspection)
  {
    var m :| 0 <= m < |looked| && start.inspections[m].id == inspection && start.Runs(inspection, looked[m]);
    assert (looked + [now])[m] == looked[m];
  }

  lemma ChosenLess(start: Start, looked: seq<int>, now: int, inspection: string)
    requires |looked| < |start.inspections| && Chosen(start, looked + [now], inspection)
    ensures Chosen(start, looked, inspection) || (start.inspections[|looked|].id == inspection && start.Runs(inspection, now))
  {
    var more := looked + [now];
    var m :| 0 <= m < |more| && start.inspections[m].id == inspection && start.Runs(inspection, more[m]);
    if m < |looked| { assert more[m] == looked[m]; }
  }

  lemma OfNone(attempts: seq<Attempt>, inspection: string)
    requires forall a :: a in attempts ==> a.inspection != inspection
    ensures Of(attempts, inspection) == []
  {
  }

  lemma PassStarts(start: Start, byInspection: map<string, seq<Attempt>>)
    requires forall id :: PriorOf(byInspection, id) == Of(Newest(start.attempts, ATTEMPT_LIMIT), id)
    ensures Pass(start, [], start.Done(), start.artifacts, start.attempts, byInspection)
  {
    var n := |start.attempts|;
    SeesListed(start.attempts, if n <= ATTEMPT_LIMIT then 0 else n - ATTEMPT_LIMIT, byInspection);
    hide Sees, Of;
  }

  lemma PassSkips(start: Start, looked: seq<int>, now: int, done: set<string>, artifacts: seq<string>, attempts: seq<Attempt>,
                  byInspection: map<string, seq<Attempt>>)
    requires Pass(start, looked, done, artifacts, attempts, byInspection)
    requires |looked| < |start.inspections| && start.inspections[|looked|].id in done
    ensures Pass(start, looked + [now], done, artifacts, attempts, byInspection)
  {
    var inspection := start.inspections[|looked|].id;
    assert inspection !in start.Done() ==> New(start.attempts, attempts, inspection);
    if DistinctIds(start.inspections) { NotYet(start, looked, attempts); }
    hide Chosen, New, Added, Overview, Newest, Attempted, DistinctIds;
    LeaveSingly(start, looked, now, attempts);
    hide Singly;
    forall id ensures New(start.attempts, attempts, id) <==> Chosen(start, looked + [now], id) {
      ChosenSnoc(start, looked, now, id);
      assert New(start.attempts, attempts, id) <==> Chosen(start, looked, id);
    }
  }

  /** An artifact that is there and not listed shows that there are more than can be listed. */
  lemma Unlisted(inspection: string, prior: seq<Attempt>, request: Option<nat>, retries: seq<Retry>, now: int, maximum: int,
                 backoff: Duration, ok: bool, recorded: Option<Attempt>,
                 before: seq<Attempt>, after: seq<Attempt>, was: seq<string>, artifacts: seq<string>)
    requires inspection in was && inspection !in Newest(was, ARTIFACT_LIMIT) && (request.Some? ==> request.value < |retries|)
    requires Processed(inspection, prior, request, retries, now, maximum, backoff, ok, recorded, before, after, was, artifacts)
    ensures |artifacts| > ARTIFACT_LIMIT
  {
    hide Decide, Of, Backoff, Automatics;
  }

  lemma RequestIs(start: Start, inspection: string)
    ensures forall i :: 0 <= i < |NewestFirst(|start.retries|)| ==> NewestFirst(|start.retries|)[i] < |start.retries|
    ensures start.Request(inspection) == Pending(NewestFirst(|start.retries|), start.retries, start.Consumed(), inspection)
  {
  }

  lemma PassLooks(start: Start, looked: seq<int>, done: set<string>, artifacts: seq<string>, attempts: seq<Attempt>,
                  byInspection: map<string, seq<Attempt>>)
    requires Pass(start, looked, done, artifacts, attempts, byInspection)
    requires |looked| < |start.inspections| && start.inspections[|looked|].id !in done
    ensures var id := start.inspections[|looked|].id;
      && Suffix(PriorOf(byInspection, id), Of(attempts, id)) && id !in Newest(artifacts, ARTIFACT_LIMIT)
      && (|start.attempts| <= ATTEMPT_LIMIT ==> PriorOf(byInspection, id) == Of(attempts, id))
  {
  }

  /** A decided attempt was recorded. */
  lemma PassRecords(start: Start, looked: seq<int>, now: int, done: set<string>, was: seq<string>, before: seq<Attempt>,
                    byInspection: map<string, seq<Attempt>>, a: Attempt)
    requires Pass(start, looked, done, was, before, byInspection)
    requires |looked| < |start.inspections| && a.inspection == start.inspections[|looked|].id && a.inspection !in done
    requires DueNow(start, before, a, now)
    ensures Pass(start, looked + [now], Finished(done, a.inspection, Some(a)), was + (if a.succeeded then [a.inspection] else []),
                 before + [a], Listed(byInspection, a.inspection, Some(a)))
  {
    hide *;
    assert start.artifacts <= was && Added(start, before) && Exact(start, looked, before)
        && Marked(start, done, was, before) && Overview(start, byInspection, before) && Singly(start, looked, before) by {
      PassParts(start, looked, done, was, before, byInspection);
    }
    RecordAdds(start, looked, before, done, was, a);
    DueDecides(start, before, a, now);
    RecordExact(start, looked, now, before, done, was, a);
    RecordMarks(start, done, was, before, a);
    RecordSeen(start, byInspection, before, a);
    RecordSingly(start, looked, now, before, a);
    PassWhole(start, looked + [now], Finished(done, a.inspection, Some(a)), was + (if a.succeeded then [a.inspection] else []),
              before + [a], Listed(byInspection, a.inspection, Some(a)));
  }

  lemma PassParts(start: Start, looked: seq<int>, done: set<string>, artifacts: seq<string>, attempts: seq<Attempt>,
                  byInspection: map<string, seq<Attempt>>)
    requires Pass(start, looked, done, artifacts, attempts, byInspection)
    ensures start.artifacts <= artifacts && Added(start, attempts) && Exact(start, looked, attempts)
    ensures Marked(start, done, artifacts, attempts) && Overview(start, byInspection, attempts) && Singly(start, looked, attempts)
  {
  }

  lemma PassWhole(start: Start, looked: seq<int>, done: set<string>, artifacts: seq<string>, attempts: seq<Attempt>,
                  byInspection: map<string, seq<Attempt>>)
    requires start.artifacts <= artifacts && Added(start, attempts) && Exact(start, looked, attempts)
    requires Marked(start, done, artifacts, attempts) && Overview(start, byInspection, attempts) && Singly(start, looked, attempts)
    ensures Pass(start, looked, done, artifacts, attempts, byInspection)
  {
  }

  lemma RecordAdds(start: Start, looked: seq<int>, before: seq<Attempt>, done: set<string>, was: seq<string>, a: Attempt)
    requires Added(start, before) && Marked(start, done, was, before) && |looked| < |start.inspections|
    requires a.inspection == start.inspections[|looked|].id && a.inspection !in done
    ensures Added(start, before + [a])
  {
    assert start.inspections[|looked|] in start.inspections;
    AddedAppend(start, before, a);
  }

  lemma RecordExact(start: Start, looked: seq<int>, now: int, before: seq<Attempt>, done: set<string>, was: seq<string>, a: Attempt)
    requires Exact(start, looked, before) && Marked(start, done, was, before) && |looked| < |start.inspections|
    requires a.inspection == start.inspections[|looked|].id && a.inspection !in done
    requires Decide(Of(before, a.inspection), start.Request(a.inspection), start.retries, now, start.maximum) != Skip
    ensures Exact(start, looked + [now], before + [a])
  {
    hide Chosen, New, Decide, Of, Newest;
    if !New(start.attempts, before, a.inspection) { NotNewSame(start.attempts, before, a.inspection); }
    forall id ensures New(start.attempts, before + [a], id) <==> Chosen(start, looked + [now], id) {
      ChosenSnoc(start, looked, now, id);
      NewAppend(start.attempts, before, a, id);
      assert New(start.attempts, before, id) <==> Chosen(start, looked, id);
    }
  }

  lemma RecordMarks(start: Start, done: set<string>, was: seq<string>, before: seq<Attempt>, a: Attempt)
    requires Marked(start, done, was, before)
    ensures Marked(start, Finished(done, a.inspection, Some(a)), was + (if a.succeeded then [a.inspection] else []), before + [a])
  {
    NewestSnoc(was, ARTIFACT_LIMIT, a.inspection);
    if !a.succeeded { assert was + [] == was; }
    hide New, Newest;
    forall id ensures New(start.attempts, before + [a], id) <==> New(start.attempts, before, id) || a.inspection == id {
      NewAppend(start.attempts, before, a, id);
    }
  }

  lemma RecordSeen(start: Start, byInspection: map<string, seq<Attempt>>, before: seq<Attempt>, a: Attempt)
    requires Overview(start, byInspection, before)
    ensures Overview(start, Listed(byInspection, a.inspection, Some(a)), before + [a])
  {
    SeesAppend(byInspection, before, a);
  }

  /** The attempt is the one to be made after the attempts so far. */
  ghost predicate DueNow(start: Start, before: seq<Attempt>, a: Attempt, now: int) {
    var own := Of(before, a.inspection);
    && Decide(own, start.Request(a.inspection), start.retries, now, start.maximum) == Go(a.trigger, a.retry)
    && a.number == |own| + 1 && a.startedAt == now <= a.completedAt
    && a.nextRetryAt == (if a.succeeded || a.trigger != Automatic || Automatics(own) + 1 >= start.maximum then None
                         else Some(a.completedAt + Backoff(start.backoff, Automatics(own))))
  }

  lemma DueDecides(start: Start, before: seq<Attempt>, a: Attempt, now: int)
    requires DueNow(start, before, a, now)
    ensures Decide(Of(before, a.inspection), start.Request(a.inspection), start.retries, now, start.maximum) != Skip
  {
  }

  lemma OfNew(before: seq<Attempt>, after: seq<Attempt>, a: Attempt, inspection: string)
    requires before <= after
    ensures Of((after + [a])[|before|..], inspection) == Of(after[|before|..], inspection) + if a.inspection == inspection then [a] else []
    ensures !New(before, after, inspection) ==> Of(after[|before|..], inspection) == []
  {
    assert (after + [a])[|before|..] == after[|before|..] + [a];
    OfAppend(after[|before|..], a, inspection);
    if !New(before, after, inspection) { OfNone(after[|before|..], inspection); }
  }

  /** When no inspection is given twice, one that comes later was not attempted yet. */
  lemma NotYet(start: Start, looked: seq<int>, attempts: seq<Attempt>)
    requires Exact(start, looked, attempts) && DistinctIds(start.inspections) && |looked| < |start.inspections|
    ensures !New(start.attempts, attempts, start.inspections[|looked|].id)
  {
    hide New;
    var id := start.inspections[|looked|].id;
    assert New(start.attempts, attempts, id) <==> Chosen(start, looked, id);
  }

  lemma AttemptedStays(start: Start, attempts: seq<Attempt>, a: Attempt, inspection: string, now: int)
    requires start.attempts <= attempts && Attempted(start, attempts, inspection, now) && a.inspection != inspection
    ensures Attempted(start, attempts + [a], inspection, now)
  {
    OfNew(start.attempts, attempts, a, inspection);
    var b :| Of(attempts[|start.attempts|..], inspection) == [b] && start.Due(b, now);
    assert [b] + [] == [b];
  }

  lemma StillDue(start: Start, attempts: seq<Attempt>, a: Attempt, now: int)
    requires Of(attempts, a.inspection) == Of(start.attempts, a.inspection) && DueNow(start, attempts, a, now)
    ensures start.Due(a, now)
  {
    hide Of, Decide, Automatics, Backoff;
  }

  lemma AttemptedNow(start: Start, attempts: seq<Attempt>, a: Attempt, now: int)
    requires start.attempts <= attempts && !New(start.attempts, attempts, a.inspection) && DueNow(start, attempts, a, now)
    ensures Attempted(start, attempts + [a], a.inspection, now)
  {
    OfNew(start.attempts, attempts, a, a.inspection);
    NotNewSame(start.attempts, attempts, a.inspection);
    StillDue(start, attempts, a, now);
    hide Of, New, Start.Due;
    assert [] + [a] == [a];
  }

  lemma RecordSingly(start: Start, looked: seq<int>, now: int, before: seq<Attempt>, a: Attempt)
    requires Singly(start, looked, before) && Exact(start, looked, before) && DueNow(start, before, a, now)
    requires |looked| < |start.inspections| && a.inspection == start.inspections[|looked|].id
    ensures Singly(start, looked + [now], before + [a])
  {
    hide Attempted, DueNow, New, Exact;
    var more := looked + [now];
    if DistinctIds(start.inspections) {
      NotYet(start, looked, before);
      AttemptedNow(start, before, a, now);
      forall m | 0 <= m < |more| && start.Runs(start.inspections[m].id, more[m])
        ensures Attempted(start, before + [a], start.inspections[m].id, more[m])
      {
        if m < |looked| { AttemptedStays(start, before, a, start.inspections[m].id, looked[m]); }
      }
    }
  }

  /** One more inspection that is not to run leaves the others attempted once. */
  lemma LeaveSingly(start: Start, looked: seq<int>, now: int, attempts: seq<Attempt>)
    requires Singly(start, looked, attempts) && |looked| < |start.inspections|
    requires DistinctIds(start.inspections) ==> !start.Runs(start.inspections[|looked|].id, now)
    ensures Singly(start, looked + [now], attempts)
  {
    hide Attempted;
    var more := looked + [now];
    forall m | 0 <= m < |more| && DistinctIds(start.inspections) && start.Runs(start.inspections[m].id, more[m])
      ensures Attempted(start, attempts, start.inspections[m].id, more[m])
    {
      assert m < |looked| && more[m] == looked[m];
    }
  }

  /** Nothing was to be done. */
  lemma PassLeaves(start: Start, looked: seq<int>, now: int, done: set<string>, artifacts: seq<string>, attempts: seq<Attempt>,
                   byInspection: map<string, seq<Attempt>>)
    requires Pass(start, looked, done, artifacts, attempts, byInspection)
    requires |looked| < |start.inspections| && start.inspections[|looked|].id !in done
    requires var id := start.inspections[|looked|].id;
      Decide(PriorOf(byInspection, id), start.Request(id), start.retries, now, start.maximum) == Skip
    ensures Pass(start, looked + [now], done, artifacts, attempts, byInspection)
  {
    var inspection := start.inspections[|looked|].id;
    assert Suffix(PriorOf(byInspection, inspection), Of(attempts, inspection));
    SkipOfSuffix(PriorOf(byInspection, inspection), Of(attempts, inspection), start.Request(inspection), start.retries, now, start.maximum);
    if DistinctIds(start.inspections) {
      NotYet(start, looked, attempts);
      NotNewSame(start.attempts, attempts, inspection);
    }
    hide Chosen, New, Added, Overview, Newest, Decide, Of, Suffix, Attempted, DistinctIds;
    LeaveSingly(start, looked, now, attempts);
    if !New(start.attempts, attempts, inspection) { NotNewSame(start.attempts, attempts, inspection); }
    hide Singly;
    forall id ensures New(start.attempts, attempts, id) <==> Chosen(start, looked + [now], id) {
      ChosenSnoc(start, looked, now, id);
      assert New(start.attempts, attempts, id) <==> Chosen(start, looked, id);
    }
  }

  /** The inspection at hand was processed. */
  lemma {:induction false} PassGoes(start: Start, looked: seq<int>, now: int, inspection: Inspection, done: set<string>,
                                    was: seq<string>, artifacts: seq<string>, before: seq<Attempt>, after: seq<Attempt>,
                                    byInspection: map<string, seq<Attempt>>, prior: seq<Attempt>, request: Option<nat>,
                                    maximum: int, backoff: Duration, ok: bool, recorded: Option<Attempt>)
    requires Pass(start, looked, done, was, before, byInspection)
    requires |looked| < |start.inspections| && start.inspections[|looked|] == inspection && inspection.id !in done
    requires prior == PriorOf(byInspection, inspection.id) && request == start.Request(inspection.id)
    requires start.maximum == maximum && start.backoff == backoff
    requires Processed(inspection.id, prior, request, start.retries, now, maximum, backoff, ok, recorded, before, after, was, artifacts)
    ensures start.artifacts <= artifacts && Added(start, after)
    ensures ok ==>
      Pass(start, looked + [now], Finished(done, inspection.id, recorded), artifacts, after, Listed(byInspection, inspection.id, recorded))
  {
    hide Pass, Of, Decide, Backoff, Automatics, Added, Exact, Marked, Overview, Singly;
    PassParts(start, looked, done, was, before, byInspection);
    if recorded.Some? {
      PassRecords(start, looked, now, done, was, before, byInspection, recorded.value);
      PassParts(start, looked + [now], Finished(done, inspection.id, recorded), artifacts, after, Listed(byInspection, inspection.id, recorded));
    } else if ok {
      PassLeaves(start, looked, now, done, artifacts, after, byInspection);
    }
    hide *;
  }

  lemma AddedMeans(start: Start, attempts: seq<Attempt>)
    requires Added(start, attempts)
    ensures start.attempts <= attempts
    ensures forall a :: a in attempts[|start.attempts|..] ==>
      a.inspection in Ids(start.inspections) && a.inspection !in Newest(start.artifacts, ARTIFACT_LIMIT)
  {
  }

  lemma PassDoes(start: Start, looked: seq<int>, done: set<string>, artifacts: seq<string>, attempts: seq<Attempt>,
                 byInspection: map<string, seq<Attempt>>)
    requires Pass(start, looked, done, artifacts, attempts, byInspection)
    ensures Added(start, attempts) && start.artifacts <= artifacts && |looked| <= |start.inspections|
    ensures DistinctIds(start.inspections) ==>
      forall m :: 0 <= m < |looked| && start.Runs(start.inspections[m].id, looked[m]) ==>
        Attempted(start, attempts, start.inspections[m].id, looked[m])
    ensures Exact(start, looked, attempts)
    ensures forall id :: New(start.attempts, attempts, id) <==>
      exists k :: 0 <= k < |looked| && start.inspections[k].id == id && start.Runs(id, looked[k])
  {
    hide New, Sees, SeesAll, Newest;
    assert forall id :: New(start.attempts, attempts, id) <==> Chosen(start, looked, id);
  }

  lemma PassEnds(start: Start, looked: seq<int>, done: set<string>, artifacts: seq<string>, attempts: seq<Attempt>,
                 byInspection: map<string, seq<Attempt>>)
    requires Pass(start, looked, done, artifacts, attempts, byInspection) && |looked| == |start.inspections|
    ensures forall i :: i in start.inspections && i.id !in start.Done() ==> Tried(attempts, i.id)
  {
    hide Chosen, New, Sees, SeesAll, Newest;
    forall m | 0 <= m < |looked| && start.inspections[m].id !in start.Done() ensures Tried(attempts, start.inspections[m].id) {
      TriedAtLast(start, looked, m, attempts);
    }
  }

  lemma TriedAtLast(start: Start, looked: seq<int>, m: nat, attempts: seq<Attempt>)
    requires m < |looked| == |start.inspections| && start.inspections[m].id !in start.Done()
    requires start.attempts <= attempts
    requires forall id :: New(start.attempts, attempts, id) <==> Chosen(start, looked, id)
    ensures Tried(attempts, start.inspections[m].id)
  {
    var id := start.inspections[m].id;
    OfMembers(start.attempts, id);
    var own := Of(start.attempts, id);
    if own != [] {
      assert own[0] in own && own[0] in attempts;
    } else {
      ChosenAt(start, looked, m, id);
      hide Chosen;
      var a :| a in attempts[|start.attempts|..] && a.inspection == id;
      assert a in attempts;
    }
  }

  /** A number is taken only when the prior attempts were not listed completely. */
  lemma {:induction false} NumberTaken(attempts: seq<Attempt>, artifacts: seq<string>, retries: seq<Retry>, maximum: int,
                                       prior: seq<Attempt>, a: Attempt)
    requires ValidLog(attempts, artifacts, retries, maximum) && a.number == |prior| + 1
    ensures (exists b :: b in attempts && b.inspection == a.inspection && b.number == a.number) ==> prior != Of(attempts, a.inspection)
  {
    NumberedWithoutGaps(attempts, retries, maximum, a.inspection, a.number);
  }

  // ---------- The worker ----------

  datatype Build = Failed | BadArtifact | Produced

  class Worker {
    var attempts: seq<Attempt>
    var artifacts: seq<string>
    var retries: seq<Retry>
    const maxAutomaticAttempts: int
    const retryBackoff: Duration
    const named: bool
    /** The store writes and receipts that failed so far. */
    ghost var failures: nat

    ghost predicate Valid()
      reads this`attempts, this`artifacts, this`retries
    {
      ValidLog(attempts, artifacts, retries, Clamped(maxAutomaticAttempts))
    }

    constructor (maxAutomaticAttempts: int, retryBackoff: Duration, named: bool)
      ensures Valid() && attempts == [] && artifacts == [] && retries == []
    {
      this.maxAutomaticAttempts, this.retryBackoff, this.named := maxAutomaticAttempts, retryBackoff, named;
      attempts, artifacts, retries, failures := [], [], [], 0;
    }

    ghost function StartOf(inspections: seq<Inspection>): Start
      reads this`attempts, this`artifacts, this`retries
    {
      Start(inspections, attempts, artifacts, retries, Clamped(maxAutomaticAttempts), retryBackoff)
    }

    /** Records an attempt unless its inspection already has one of that number or the store fails. */
    method CreateAttempt(attempt: Attempt) returns (ok: bool)
      modifies this`attempts, this`failures
      ensures ok ==> failures == old(failures)
      ensures ok ==> forall a :: a in old(attempts) ==> a.inspection != attempt.inspection || a.number != attempt.number
      ensures !ok ==> failures > old(failures) || exists a :: a in attempts && a.inspection == attempt.inspection && a.number == attempt.number
      ensures attempts == if ok then old(attempts) + [attempt] else old(attempts)
    {
      ok := *;
      if !ok { failures := failures + 1; }
      if exists i | 0 <= i < |attempts| :: attempts[i].inspection == attempt.inspection && attempts[i].number == attempt.number {
        ok := false;
      }
      if ok {
        attempts := attempts + [attempt];
      }
    }

    method CreateArtifact(inspection: string) returns (ok: bool)
      modifies this`artifacts, this`failures
      ensures ok ==> inspection !in old(artifacts) && failures == old(failures)
      ensures !ok ==> failures > old(failures) || inspection in old(artifacts)
      ensures artifacts == if ok then old(artifacts) + [inspection] else old(artifacts)
    {
      ok := *;
      if !ok { failures := failures + 1; }
      ok := ok && inspection !in artifacts;
      if ok {
        artifacts := artifacts + [inspection];
      }
    }

    /** An administrator authorizes one more run after the newest attempt, which must have failed and
        must not have been authorized for before. The newest attempt must also still be listed. */
    method RequestRetry(inspection: string, previous: nat, reason: string, actor: string, at: int) returns (ok: bool)
      requires Valid()
      modifies this`retries, this`failures
      ensures Valid()
      ensures ok <==>
        && failures == old(failures)
        && Explained(reason, actor)
        && Of(Newest(attempts, ATTEMPT_LIMIT), inspection) != []
        && NewestFailed(attempts, inspection, previous)
        && forall r :: r in old(retries) ==> r.inspection != inspection || r.previous != previous
      ensures retries == if ok then old(retries) + [Retry(inspection, previous, at)] else old(retries)
    {
      var own := Of(Newest(attempts, ATTEMPT_LIMIT), inspection);
      OfNewest(attempts, inspection);
      hide ValidLog, Of, Newest;
      if own == [] || own[|own| - 1].number != previous || own[|own| - 1].succeeded || !Explained(reason, actor) {
        return false;
      }
      ok := *;
      if !ok { failures := failures + 1; }
      if exists i | 0 <= i < |retries| :: retries[i].inspection == inspection && retries[i].previous == previous {
        return false;
      }
      if ok {
        RetryKeeps(attempts, artifacts, retries, Clamped(maxAutomaticAttempts), Retry(inspection, previous, at));
        retries := retries + [Retry(inspection, previous, at)];
      }
    }

    /** Decides about one inspection and, unless it is skipped, builds it and records the attempt.
        A recorded attempt carries the next number, the decided trigger and the next retry time. */
    method Process(inspection: Inspection, prior: seq<Attempt>, request: Option<nat>, now: int) returns (ok: bool, recorded: Option<Attempt>)
      requires Valid() && Suffix(prior, Of(attempts, inspection.id))
      requires request.Some? ==> request.value < |retries| && retries[request.value].inspection == inspection.id
      requires inspection.id !in Newest(artifacts, ARTIFACT_LIMIT)
      modifies this`attempts, this`artifacts, this`failures
      ensures Valid()
      ensures Processed(inspection.id, prior, request, retries, now, Clamped(maxAutomaticAttempts), retryBackoff, ok, recorded,
                        old(attempts), attempts, old(artifacts), artifacts)
      ensures if ok then failures == old(failures)
              else failures > old(failures) || prior != Of(old(attempts), inspection.id) || inspection.id in old(artifacts)
    {
      hide ValidLog, History, Suffix, Of, NoSuccess, Backoff, Newest, Automatics;
      var maximum := maxAutomaticAttempts;
      if maximum <= 0 {
        maximum := 3;
      }
      if maximum > 10 {
        maximum := 10;
      }
      var automatics := Automatics(prior);
      var trigger, retry := Automatic, None;
      if |prior| > 0 {
        var latest := prior[|prior| - 1];
        if request.Some? && retries[request.value].previous == latest.number {
          trigger, retry := Manual, request;
        } else if latest.trigger == Manual || automatics >= maximum || (latest.nextRetryAt.Some? && now < latest.nextRetryAt.value) {
          return true, None;
        }
      }
      hide Decide;
      ok, recorded := BuildAndRecord(inspection, prior, request, now, maximum, automatics, trigger, retry);
    }

    /** Builds the inspection and records the attempt. An artifact is on record before its attempt. */
    method BuildAndRecord(inspection: Inspection, prior: seq<Attempt>, ghost request: Option<nat>, now: int, maximum: int, automatics: nat,
                          trigger: Trigger, retry: Option<nat>) returns (ok: bool, recorded: Option<Attempt>)
      requires Valid() && Suffix(prior, Of(attempts, inspection.id))
      requires request.Some? ==> request.value < |retries| && retries[request.value].inspection == inspection.id
      requires inspection.id !in Newest(artifacts, ARTIFACT_LIMIT)
      requires maximum == Clamped(maxAutomaticAttempts) && automatics == Automatics(prior)
      requires Decide(prior, request, retries, now, maximum) == Go(trigger, retry)
      modifies this`attempts, this`artifacts, this`failures
      ensures Valid()
      ensures Processed(inspection.id, prior, request, retries, now, maximum, retryBackoff, ok, recorded,
                        old(attempts), attempts, old(artifacts), artifacts)
      ensures if ok then failures == old(failures)
              else failures > old(failures) || prior != Of(old(attempts), inspection.id) || inspection.id in old(artifacts)
    {
      hide ValidLog, History, Suffix, Of, NoSuccess, Backoff, Newest, Automatics, Decide;
      ok, recorded := true, None;
      if inspection.id !in artifacts {
        ArtifactKeeps(attempts, artifacts, retries, maximum, inspection.id);
      }
      var build: Build, completedAt: int := *, *;
      var receipt := named && inspection.inspected && completedAt >= now;
      var next := None;
      if build == Produced {
        ok := CreateArtifact(inspection.id);
        if !ok {
          return;
        }
      } else {
        next := AutomaticRetryAt(trigger, automatics, maximum, completedAt, retryBackoff);
      }
      if !receipt {
        failures := failures + 1;
        return false, None;
      }
      ok, recorded := Record(Attempt(inspection.id, |prior| + 1, trigger, retry, build == Produced, now, completedAt, next), prior, request);
    }

    /** Appends the attempt; a number already used in the log is refused, which is what keeps the
        numbering gapless even when the listing was cut off. */
    method Record(a: Attempt, ghost prior: seq<Attempt>, ghost request: Option<nat>) returns (ok: bool, recorded: Option<Attempt>)
      requires Valid() && Suffix(prior, Of(attempts, a.inspection)) && a.number == |prior| + 1
      requires request.Some? ==> request.value < |retries| && retries[request.value].inspection == a.inspection
      requires Decide(prior, request, retries, a.startedAt, Clamped(maxAutomaticAttempts)) == Go(a.trigger, a.retry)
      requires a.succeeded ==> a.inspection in artifacts && a.nextRetryAt == None
      requires a.inspection in Newest(artifacts, ARTIFACT_LIMIT) ==> NoSuccess(attempts, a.inspection)
      modifies this`attempts, this`failures
      ensures Valid()
      ensures ok <==> recorded.Some?
      ensures recorded.Some? ==> recorded.value == a && attempts == old(attempts) + [a] && prior == Of(old(attempts), a.inspection)
      ensures !ok ==> attempts == old(attempts)
      ensures if ok then failures == old(failures) else failures > old(failures) || prior != Of(old(attempts), a.inspection)
    {
      hide ValidLog, History, Decide, Suffix, Of, NoSuccess, Newest;
      ok := CreateAttempt(a);
      recorded := if ok then Some(a) else None;
      if ok {
        RecordKeeps(old(attempts), artifacts, retries, Clamped(maxAutomaticAttempts), prior, request, a);
      } else {
        NumberTaken(attempts, artifacts, retries, Clamped(maxAutomaticAttempts), prior, a);
      }
    }

    /** What a pass reads first: the listed attempts by inspection, the consumed requests, and the
        inspections with a listed artifact. */
    method Survey(ghost inspections: seq<Inspection>)
      returns (byInspection: map<string, seq<Attempt>>, consumed: set<nat>, done: set<string>)
      ensures Pass(StartOf(inspections), [], done, artifacts, attempts, byInspection)
      ensures consumed == StartOf(inspections).Consumed()
    {
      var listed := Newest(attempts, ATTEMPT_LIMIT);
      hide Pass, Of, Newest;
      var known := set a | a in listed :: a.inspection;
      byInspection := map id | id in known :: Of(listed, id);
      consumed := set a | a in listed && a.retry.Some? :: a.retry.value;
      done := set id | id in Newest(artifacts, ARTIFACT_LIMIT);
      forall id ensures PriorOf(byInspection, id) == Of(listed, id) {
        if id !in byInspection { OfNone(listed, id); }
      }
      PassStarts(StartOf(inspections), byInspection);
    }

    /** One pass over the given inspections. Whatever has a listed artifact is not attempted. When the
        pass succeeds it attempted exactly the inspections that were to run when it looked at them,
        and an inspection without a listed artifact has at least one attempt. The pass fails only
        for a failing write or receipt, or when there is more on record than the stores list. */
    method RunOnce(inspections: seq<Inspection>) returns (ok: bool, ghost looked: seq<int>)
      requires Valid()
      modifies this`attempts, this`artifacts, this`failures
      ensures Valid() && old(attempts) <= attempts && old(artifacts) <= artifacts
      ensures forall a :: a in attempts[|old(attempts)|..] ==> a.inspection in Ids(inspections) && a.inspection !in Newest(old(artifacts), ARTIFACT_LIMIT)
      ensures ok ==> |looked| == |inspections| && failures == old(failures)
      ensures ok ==> forall id :: New(old(attempts), attempts, id) <==>
        exists k :: 0 <= k < |inspections| && inspections[k].id == id && old(StartOf(inspections)).Runs(id, looked[k])
      ensures ok && DistinctIds(inspections) ==> forall k :: 0 <= k < |inspections| && old(StartOf(inspections)).Runs(inspections[k].id, looked[k]) ==>
        Attempted(old(StartOf(inspections)), attempts, inspections[k].id, looked[k])
      ensures ok && DistinctIds(inspections) && |old(attempts)| <= 10000 && |retries| <= 10000 ==>
        forall k :: 0 <= k < |inspections| ==> AsAuthorised(old(StartOf(inspections)), attempts, inspections[k].id, looked[k])
      ensures ok ==> forall i :: i in inspections && i.id !in Newest(old(artifacts), ARTIFACT_LIMIT) ==> Tried(attempts, i.id)
      ensures !ok ==> failures > old(failures) || |old(attempts)| > ATTEMPT_LIMIT || |artifacts| > ARTIFACT_LIMIT
    {
      ghost var start := StartOf(inspections);
      assert start == Start(inspections, attempts, artifacts, retries, Clamped(maxAutomaticAttempts), retryBackoff);
      assert ValidLog(start.attempts, start.artifacts, start.retries, start.maximum);
      hide *;
      var byInspection, consumed, done := Survey(inspections);
      looked := [];
      for k := 0 to |inspections|
        invariant Valid() && |looked| == k && failures == old(failures)
        invariant Pass(start, looked, done, artifacts, attempts, byInspection)
      {
        if inspections[k].id in done {
          PassSkips(start, looked, 0, done, artifacts, attempts, byInspection);
          looked := looked + [0];
        } else {
          var now: int := *;
          ok, done, byInspection := Visit(start, looked, inspections[k], now, done, consumed, byInspection);
          if !ok {
            AddedMeans(start, attempts);
            return;
          }
          looked := looked + [now];
        }
      }
      PassDoes(start, looked, done, artifacts, attempts, byInspection);
      AddedMeans(start, attempts);
      PassEnds(start, looked, done, artifacts, attempts, byInspection);
      if DistinctIds(inspections) && |start.attempts| <= ATTEMPT_LIMIT && |retries| <= ATTEMPT_LIMIT {
        forall k | 0 <= k < |inspections| ensures AsAuthorised(start, attempts, inspections[k].id, looked[k]) {
          PassAuthorised(start, looked, attempts, k);
        }
      }
      ok := true;
    }

    /** Looks at one inspection that has no listed artifact. */
    method Visit(ghost start: Start, ghost looked: seq<int>, inspection: Inspection, now: int, done: set<string>, consumed: set<nat>,
                 byInspection: map<string, seq<Attempt>>)
      returns (ok: bool, done': set<string>, byInspection': map<string, seq<Attempt>>)
      requires Valid() && |looked| < |start.inspections| && start.inspections[|looked|] == inspection && inspection.id !in done
      requires Pass(start, looked, done, artifacts, attempts, byInspection)
      requires start.retries == retries && start.maximum == Clamped(maxAutomaticAttempts) && start.backoff == retryBackoff
      requires consumed == start.Consumed()
      modifies this`attempts, this`artifacts, this`failures
      ensures Valid()
      ensures start.artifacts <= artifacts && Added(start, attempts)
      ensures ok ==> failures == old(failures) && Pass(start, looked + [now], done', artifacts, attempts, byInspection')
      ensures !ok ==> failures > old(failures) || |start.attempts| > ATTEMPT_LIMIT || |artifacts| > ARTIFACT_LIMIT
    {
      hide *;
      var prior := PriorOf(byInspection, inspection.id);
      RequestIs(start, inspection.id);
      var request := Pending(NewestFirst(|retries|), retries, consumed, inspection.id);
      ghost var maximum := Clamped(maxAutomaticAttempts);
      PassLooks(start, looked, done, artifacts, attempts, byInspection);
      var recorded;
      ok, recorded := Process(inspection, prior, request, now);
      done', byInspection' := done, byInspection;
      if !ok && inspection.id in old(artifacts) {
        Unlisted(inspection.id, prior, request, retries, now, maximum, retryBackoff, ok, recorded, old(attempts), attempts, old(artifacts), artifacts);
      }
      PassGoes(start, looked, now, inspection, done, old(artifacts), artifacts, old(attempts), attempts, byInspection, prior, request,
               maximum, retryBackoff, ok, recorded);
      if ok {
        done' := Finished(done, inspection.id, recorded);
        byInspection' := Listed(byInspection, inspection.id, recorded);
      }
    }
  }

  const REASON_LIMIT := 500

  predicate Explained(reason: string, actor: string) {
    Texts.Trim(reason) != "" && Texts.Trim(actor) != "" && |Texts.Trim(reason)| <= REASON_LIMIT
  }

  /** The newest attempt of the inspection has this number and failed. */
  ghost predicate NewestFailed(attempts: seq<Attempt>, inspection: string, number: nat) {
    var own := Of(attempts, inspection);
    own != [] && own[|own| - 1].number == number && !own[|own| - 1].succeeded
  }

  /** What is listed of an inspection ends with its newest attempt. */
  lemma OfNewest(attempts: seq<Attempt>, inspection: string)
    ensures var own, listed := Of(attempts, inspection), Of(Newest(attempts, ATTEMPT_LIMIT), inspection);
      listed != [] ==> own != [] && own[|own| - 1] == listed[|listed| - 1]
  {
    OfSuffix(attempts, |attempts| - |Newest(attempts, ATTEMPT_LIMIT)|, inspection);
  }

  /** Allowing one more run after a failed attempt that is not named yet keeps the log valid. */
  lemma {:induction false} RetryKeeps(attempts: seq<Attempt>, artifacts: seq<string>, retries: seq<Retry>, maximum: int, retry: Retry)
    requires ValidLog(attempts, artifacts, retries, maximum)
    requires forall r :: r in retries ==> r.inspection != retry.inspection || r.previous != retry.previous
    requires NewestFailed(attempts, retry.inspection, retry.previous)
    ensures ValidLog(attempts, artifacts, retries + [retry], maximum)
  {
    var more := retries + [retry];
    var own := Of(attempts, retry.inspection);
    OfMembers(attempts, retry.inspection);
    assert own[|own| - 1] in own;
    hide Of, SucceedsLast, Newest;
    assert NamesFailed(attempts, retry);
    forall i ensures History(Of(attempts, i), i, maximum, more) {
      HistoryOfMoreRetries(Of(attempts, i), i, maximum, retries, more);
    }
    hide History, NamesFailed;
    assert forall r | 0 <= r < |retries| :: more[r] == retries[r];
  }

  lemma HistoryOfMoreRetries(own: seq<Attempt>, inspection: string, maximum: int, retries: seq<Retry>, more: seq<Retry>)
    requires History(own, inspection, maximum, retries) && retries <= more
    ensures History(own, inspection, maximum, more)
  {
  }
}
