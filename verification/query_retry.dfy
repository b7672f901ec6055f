/**
 queryDisplayConfigWithRetry: the two-phase display-configuration query.

 Each attempt asks GetDisplayConfigBufferSizes for the active-path and mode
 counts, allocates buffers of exactly those sizes, and asks QueryDisplayConfig
 to fill them. When the topology grew in between, the config query answers
 ERROR_INSUFFICIENT_BUFFER and the attempt is repeated, at most MaxRetries
 times in all. Any other failure is final.

 The reply script `os` gives the OS answers of the k-th attempt as `os(k)`.
 `Query` is the recursive reference definition; the method
 `QueryDisplayConfigWithRetry` is the counted loop of
 `queryDisplayConfigWithRetry` and is proved to agree with it.
 */
module QueryRetry {
  import opened DisplayConfig

  /** The attempt's config query found the buffers too small: the loop starts over. */
  predicate TooSmall(a: AttemptReplies) {
    && a.sizes.status == ErrorSuccess
    && a.sizes.numPaths > 0
    && a.config.status == ErrorInsufficientBuffer
  }

  /** The mode-info pointer: no buffer at all when there are no modes, never a pointer to empty storage. */
  function ModeBufferFor(numModes: nat): ModeBuffer {
    if numModes > 0 then ModeArray(numModes) else NilBuffer
  }

  /** A freshly allocated path buffer: `capacity` zero-valued records. */
  function ZeroPaths(capacity: nat): seq<DisplayPath> {
    seq(capacity, _ => ZeroPath)
  }

  /** The OS writes `records` over the start of `buffer`; the buffer keeps its length. */
  function WriteRecords(buffer: seq<DisplayPath>, records: seq<DisplayPath>): seq<DisplayPath> {
    seq(|buffer|, i requires 0 <= i < |buffer| => if i < |records| then records[i] else buffer[i])
  }

  /** The display calls one attempt issues, in order. */
  function AttemptCalls(a: AttemptReplies): seq<DisplayCall> {
    if a.sizes.status != ErrorSuccess || a.sizes.numPaths == 0 then
      [BufferSizesCall(QdcOnlyActivePaths)]
    else
      [BufferSizesCall(QdcOnlyActivePaths),
       QueryConfigCall(QdcOnlyActivePaths, a.sizes.numPaths, a.sizes.numModes, ModeBufferFor(a.sizes.numModes))]
  }

  /** What an attempt that does not retry returns. */
  function Settle(a: AttemptReplies): (r: Result<seq<DisplayPath>>)
    requires HonestAttempt(a) && !TooSmall(a)
    ensures r.Success? ==> |r.value| <= a.sizes.numPaths
    ensures r.Success? && a.sizes.numPaths > 0 ==> |r.value| == a.config.filled
    ensures r.Failure? ==> r.error.Errno? && r.error.code != ErrorSuccess
    ensures r.Failure? && a.sizes.status == ErrorSuccess ==> r.error.code == a.config.status
    ensures a.sizes.status != ErrorSuccess ==> r == Failure(Errno(a.sizes.status))
    ensures a.sizes.status == ErrorSuccess && a.sizes.numPaths == 0 ==> r == Success([])
    ensures a.sizes.status == ErrorSuccess && a.sizes.numPaths > 0 ==> (r.Success? <==> a.config.status == ErrorSuccess)
  {
    if a.sizes.status != ErrorSuccess then Failure(Errno(a.sizes.status))
    else if a.sizes.numPaths == 0 then Success([])
    else if a.config.status == ErrorSuccess then
      Success(WriteRecords(ZeroPaths(a.sizes.numPaths), a.config.records)[..a.config.filled])
    else Failure(Errno(a.config.status))
  }

  /** The outcome of the whole query: the result, every display call issued, and the number of attempts made. */
  datatype QueryRun = QueryRun(result: Result<seq<DisplayPath>>, calls: seq<DisplayCall>, attempts: nat)

  /** The query started at attempt `k`. */
  function QueryFrom(os: nat -> AttemptReplies, k: nat): QueryRun
    requires HonestOs(os)
    decreases MaxRetries - k
  {
    if k >= MaxRetries then QueryRun(Failure(Errno(ErrorInsufficientBuffer)), [], 0)
    else
      var a := os(k);
      if TooSmall(a) then
        var rest := QueryFrom(os, k + 1);
        QueryRun(rest.result, AttemptCalls(a) + rest.calls, rest.attempts + 1)
      else
        QueryRun(Settle(a), AttemptCalls(a), 1)
  }

  /**
   The reference definition of the whole retrying query: between one and
   MaxRetries attempts, a failure is always a non-zero errno, and a path list
   is never longer than the path count of the attempt that produced it.
   */
  function Query(os: nat -> AttemptReplies): (q: QueryRun)
    requires HonestOs(os)
    ensures 1 <= q.attempts <= MaxRetries
    ensures q.result.Failure? ==> q.result.error.Errno? && q.result.error.code != ErrorSuccess
    ensures q.result.Success? ==> |q.result.value| <= os(q.attempts - 1).sizes.numPaths
  {
    QueryFromBounds(os, 0);
    QueryFromLastAttempt(os, 0);
    QueryFrom(os, 0)
  }

  function CountSizeCalls(calls: seq<DisplayCall>): nat {
    if |calls| == 0 then 0
    else (if calls[0].BufferSizesCall? then 1 else 0) + CountSizeCalls(calls[1..])
  }

  function CountConfigCalls(calls: seq<DisplayCall>): nat {
    if |calls| == 0 then 0
    else (if calls[0].QueryConfigCall? then 1 else 0) + CountConfigCalls(calls[1..])
  }

  lemma CountsDistribute(xs: seq<DisplayCall>, ys: seq<DisplayCall>)
    ensures CountSizeCalls(xs + ys) == CountSizeCalls(xs) + CountSizeCalls(ys)
    ensures CountConfigCalls(xs + ys) == CountConfigCalls(xs) + CountConfigCalls(ys)
  {
    if |xs| == 0 {
      assert xs + ys == ys;
    } else {
      assert (xs + ys)[1..] == xs[1..] + ys;
      CountsDistribute(xs[1..], ys);
    }
  }

  /** Each attempt issues exactly one size query, and a config query only when the size query reported paths. */
  lemma AttemptCallCounts(a: AttemptReplies)
    ensures CountSizeCalls(AttemptCalls(a)) == 1
    ensures CountConfigCalls(AttemptCalls(a)) == (if a.sizes.status == ErrorSuccess && a.sizes.numPaths > 0 then 1 else 0)
  {
    var ac := AttemptCalls(a);
    if a.sizes.status != ErrorSuccess || a.sizes.numPaths == 0 {
      assert ac[1..] == [];
    } else {
      var tail := ac[1..];
      assert tail[1..] == [];
      assert CountSizeCalls(tail) == 0 && CountConfigCalls(tail) == 1;
    }
  }

  /** One call as `queryDisplayConfigWithRetry` issues it: only active paths, and a mode pointer that is nil exactly when there are no modes. */
  predicate WellFormedCall(c: DisplayCall) {
    && c.flags == QdcOnlyActivePaths
    && (c.QueryConfigCall? ==>
          && c.pathCapacity > 0
          && (c.modeBuffer.NilBuffer? <==> c.modeCapacity == 0)
          && (c.modeBuffer.ModeArray? ==> c.modeBuffer.length == c.modeCapacity))
  }

  /** Every call is well formed, and every config query directly follows a size query. */
  ghost predicate WellFormedCalls(calls: seq<DisplayCall>) {
    && (forall i :: 0 <= i < |calls| ==> WellFormedCall(calls[i]))
    && (forall i :: 0 <= i < |calls| && calls[i].QueryConfigCall? ==> 0 < i && calls[i - 1].BufferSizesCall?)
  }

  lemma {:induction false} QueryFromBounds(os: nat -> AttemptReplies, k: nat)
    requires HonestOs(os) && k <= MaxRetries
    ensures var q := QueryFrom(os, k);
      && k + q.attempts <= MaxRetries
      && (k < MaxRetries ==> 1 <= q.attempts)
      && CountSizeCalls(q.calls) == q.attempts
      && CountConfigCalls(q.calls) <= q.attempts
      && (forall j :: k <= j < k + q.attempts - 1 ==> TooSmall(os(j)))
      && (q.result.Failure? ==> q.result.error.Errno? && q.result.error.code != ErrorSuccess)
    decreases MaxRetries - k
  {
    if k < MaxRetries {
      var a := os(k);
      var ac := AttemptCalls(a);
      AttemptCallCounts(a);
      if TooSmall(a) {
        QueryFromBounds(os, k + 1);
        CountsDistribute(ac, QueryFrom(os, k + 1).calls);
      }
    }
  }

  /** Concatenating well-formed traces keeps them well formed when the second starts with a size query. */
  lemma WellFormedAppend(xs: seq<DisplayCall>, ys: seq<DisplayCall>)
    requires WellFormedCalls(xs) && WellFormedCalls(ys)
    requires |ys| > 0 ==> ys[0].BufferSizesCall?
    ensures WellFormedCalls(xs + ys)
  {
    forall i | 0 <= i < |xs + ys| && (xs + ys)[i].QueryConfigCall?
      ensures 0 < i && (xs + ys)[i - 1].BufferSizesCall?
    {
      if i >= |xs| {
        assert ys[i - |xs|] == (xs + ys)[i];
        assert i - |xs| > 0;
        assert (xs + ys)[i - 1] == ys[i - 1 - |xs|];
      }
    }
  }

  lemma {:induction false} QueryFromCallsWellFormed(os: nat -> AttemptReplies, k: nat)
    requires HonestOs(os) && k <= MaxRetries
    ensures WellFormedCalls(QueryFrom(os, k).calls)
    ensures |QueryFrom(os, k).calls| > 0 ==> QueryFrom(os, k).calls[0].BufferSizesCall?
    decreases MaxRetries - k
  {
    if k < MaxRetries && TooSmall(os(k)) {
      QueryFromCallsWellFormed(os, k + 1);
      WellFormedAppend(AttemptCalls(os(k)), QueryFrom(os, k + 1).calls);
    }
  }

  /** The last attempt made either settles the result or is the MaxRetries-th one that ran out of room. */
  lemma {:induction false} QueryFromLastAttempt(os: nat -> AttemptReplies, k: nat)
    requires HonestOs(os) && k < MaxRetries
    ensures var q := QueryFrom(os, k);
      && 1 <= q.attempts
      && (!TooSmall(os(k + q.attempts - 1)) ==> q.result == Settle(os(k + q.attempts - 1)))
      && (TooSmall(os(k + q.attempts - 1)) ==>
            k + q.attempts == MaxRetries && q.result == Failure(Errno(ErrorInsufficientBuffer)))
    decreases MaxRetries - k
  {
    if TooSmall(os(k)) && k + 1 < MaxRetries {
      QueryFromLastAttempt(os, k + 1);
    }
  }

  /**
   The retry bound: between one and MaxRetries attempts, one size query per
   attempt, at most one config query per attempt, every attempt but the last
   ended in ERROR_INSUFFICIENT_BUFFER, every call is well formed, and a
   failure is always a non-zero errno.
   */
  lemma RetryBound(os: nat -> AttemptReplies)
    requires HonestOs(os)
    ensures var q := Query(os);
      && 1 <= q.attempts <= MaxRetries
      && CountSizeCalls(q.calls) == q.attempts
      && CountConfigCalls(q.calls) <= q.attempts
      && (forall j :: 0 <= j < q.attempts - 1 ==> TooSmall(os(j)))
      && WellFormedCalls(q.calls)
      && (q.result.Failure? ==> q.result.error.Errno? && q.result.error.code != ErrorSuccess)
  {
    QueryFromBounds(os, 0);
    QueryFromCallsWellFormed(os, 0);
  }

  lemma {:induction false} QueryFromSettles(os: nat -> AttemptReplies, k: nat, s: nat)
    requires HonestOs(os)
    requires k <= s < MaxRetries
    requires forall j :: k <= j < s ==> TooSmall(os(j))
    requires !TooSmall(os(s))
    ensures QueryFrom(os, k).result == Settle(os(s))
    ensures QueryFrom(os, k).attempts == s - k + 1
    ensures |QueryFrom(os, k).calls| > 0
    ensures QueryFrom(os, k).calls[|QueryFrom(os, k).calls| - |AttemptCalls(os(s))|..] == AttemptCalls(os(s))
    decreases s - k
  {
    if k < s {
      QueryFromSettles(os, k + 1, s);
      var rest := QueryFrom(os, k + 1).calls;
      var ac := AttemptCalls(os(k));
      assert QueryFrom(os, k).calls == ac + rest;
      assert (ac + rest)[|ac + rest| - |AttemptCalls(os(s))|..] == rest[|rest| - |AttemptCalls(os(s))|..];
    }
  }

  /**
   The first attempt that does not end in ERROR_INSUFFICIENT_BUFFER decides
   the result, and no attempt follows it.
   */
  lemma SettlesOnFirstNonRetryAttempt(os: nat -> AttemptReplies, s: nat)
    requires HonestOs(os)
    requires s < MaxRetries
    requires forall j :: 0 <= j < s ==> TooSmall(os(j))
    requires !TooSmall(os(s))
    ensures Query(os).result == Settle(os(s))
    ensures Query(os).attempts == s + 1
  {
    QueryFromSettles(os, 0, s);
  }

  /** A failing size query is returned as that errno at once: no config query in that attempt and no further attempt. */
  lemma SizeQueryErrorIsFinal(os: nat -> AttemptReplies, s: nat)
    requires HonestOs(os)
    requires s < MaxRetries
    requires forall j :: 0 <= j < s ==> TooSmall(os(j))
    requires os(s).sizes.status != ErrorSuccess
    ensures Query(os).result == Failure(Errno(os(s).sizes.status))
    ensures Query(os).attempts == s + 1
    ensures Query(os).calls[|Query(os).calls| - 1] == BufferSizesCall(QdcOnlyActivePaths)
  {
    QueryFromSettles(os, 0, s);
  }

  /** A size query reporting no active paths ends the query with an empty list and no error, without a config query. */
  lemma ZeroPathsIsEmptySuccess(os: nat -> AttemptReplies, s: nat)
    requires HonestOs(os)
    requires s < MaxRetries
    requires forall j :: 0 <= j < s ==> TooSmall(os(j))
    requires os(s).sizes.status == ErrorSuccess && os(s).sizes.numPaths == 0
    ensures Query(os).result == Success([])
    ensures Query(os).attempts == s + 1
    ensures Query(os).calls[|Query(os).calls| - 1] == BufferSizesCall(QdcOnlyActivePaths)
  {
    QueryFromSettles(os, 0, s);
  }

  /** A config query failing with anything but ERROR_INSUFFICIENT_BUFFER is returned as that errno, without retry. */
  lemma ConfigQueryErrorIsFinal(os: nat -> AttemptReplies, s: nat)
    requires HonestOs(os)
    requires s < MaxRetries
    requires forall j :: 0 <= j < s ==> TooSmall(os(j))
    requires os(s).sizes.status == ErrorSuccess && os(s).sizes.numPaths > 0
    requires os(s).config.status != ErrorSuccess && os(s).config.status != ErrorInsufficientBuffer
    ensures Query(os).result == Failure(Errno(os(s).config.status))
    ensures Query(os).attempts == s + 1
  {
    QueryFromSettles(os, 0, s);
  }

  /**
   A successful config query returns the allocated path buffer trimmed to the
   count the OS filled: never longer than the size that attempt reported, the
   OS's records first and zero-valued records after them.
   */
  lemma ConfigQuerySuccessTrims(os: nat -> AttemptReplies, s: nat)
    requires HonestOs(os)
    requires s < MaxRetries
    requires forall j :: 0 <= j < s ==> TooSmall(os(j))
    requires os(s).sizes.status == ErrorSuccess && os(s).sizes.numPaths > 0
    requires os(s).config.status == ErrorSuccess
    ensures Query(os).result.Success?
    ensures |Query(os).result.value| == os(s).config.filled <= os(s).sizes.numPaths
    ensures forall i :: 0 <= i < |Query(os).result.value| ==>
      Query(os).result.value[i] == (if i < |os(s).config.records| then os(s).config.records[i] else ZeroPath)
    ensures Query(os).attempts == s + 1
  {
    QueryFromSettles(os, 0, s);
  }

  lemma {:induction false} QueryFromExhausts(os: nat -> AttemptReplies, k: nat)
    requires HonestOs(os) && k <= MaxRetries
    requires forall j :: k <= j < MaxRetries ==> TooSmall(os(j))
    ensures QueryFrom(os, k).result == Failure(Errno(ErrorInsufficientBuffer))
    ensures QueryFrom(os, k).attempts == MaxRetries - k
    ensures CountConfigCalls(QueryFrom(os, k).calls) == MaxRetries - k
    decreases MaxRetries - k
  {
    if k < MaxRetries {
      QueryFromExhausts(os, k + 1);
      CountsDistribute(AttemptCalls(os(k)), QueryFrom(os, k + 1).calls);
    }
  }

  /**
   A topology that never settles: when every attempt's config query answers
   ERROR_INSUFFICIENT_BUFFER, exactly MaxRetries attempts are made, each with
   its config query, and the result is ERROR_INSUFFICIENT_BUFFER.
   */
  lemma InsufficientBufferExhaustsRetries(os: nat -> AttemptReplies)
    requires HonestOs(os)
    requires forall j :: 0 <= j < MaxRetries ==> TooSmall(os(j))
    ensures Query(os).result == Failure(Errno(ErrorInsufficientBuffer))
    ensures Query(os).attempts == MaxRetries
    ensures CountConfigCalls(Query(os).calls) == MaxRetries
  {
    QueryFromExhausts(os, 0);
  }

  /**
   One attempt of the loop body: the size query, the allocation of a path
   buffer and (only when there are modes) a mode buffer, and the config query.
   `retry` is set when the config query answered ERROR_INSUFFICIENT_BUFFER.
   The last three clauses tie the attempt to the reference definition for the
   loop's proof; the others state the attempt in terms of the OS replies.
   */
  method RunAttempt(a: AttemptReplies) returns (retry: bool, r: Result<seq<DisplayPath>>, calls: seq<DisplayCall>)
    requires HonestAttempt(a)
    ensures WellFormedCalls(calls) && CountSizeCalls(calls) == 1 && calls[0].BufferSizesCall?
    ensures CountConfigCalls(calls) == (if a.sizes.status == ErrorSuccess && a.sizes.numPaths > 0 then 1 else 0)
    ensures retry ==> a.sizes.status == ErrorSuccess && a.config.status == ErrorInsufficientBuffer
    ensures !retry && r.Success? ==>
      (a.sizes.numPaths == 0 && r.value == []) || (|r.value| == a.config.filled <= a.sizes.numPaths)
    ensures !retry && r.Failure? ==>
      && r.error == Errno(if a.sizes.status != ErrorSuccess then a.sizes.status else a.config.status)
      && r.error.code != ErrorSuccess
    ensures retry == TooSmall(a)
    ensures !retry ==> r == Settle(a)
    ensures calls == AttemptCalls(a)
  {
    retry := false;
    calls := [BufferSizesCall(QdcOnlyActivePaths)];
    AttemptCallCounts(a);
    if a.sizes.status != ErrorSuccess {
      r := Failure(Errno(a.sizes.status));
      return;
    }
    if a.sizes.numPaths == 0 {
      r := Success([]);
      return;
    }
    var pathBuffer := ZeroPaths(a.sizes.numPaths);
    var modeBuffer := ModeBufferFor(a.sizes.numModes);
    calls := calls + [QueryConfigCall(QdcOnlyActivePaths, a.sizes.numPaths, a.sizes.numModes, modeBuffer)];
    var reply := a.config;
    pathBuffer := WriteRecords(pathBuffer, reply.records);
    AttemptCallCounts(a);
    if reply.status == ErrorSuccess {
      r := Success(pathBuffer[..reply.filled]);
    } else if reply.status != ErrorInsufficientBuffer {
      r := Failure(Errno(reply.status));
    } else {
      retry := true;
      r := Failure(Errno(reply.status));
    }
  }

  /** The counted retry loop of `queryDisplayConfigWithRetry`. */
  method QueryDisplayConfigWithRetry(os: nat -> AttemptReplies)
    returns (r: Result<seq<DisplayPath>>, calls: seq<DisplayCall>, attempts: nat)
    requires HonestOs(os)
    ensures QueryRun(r, calls, attempts) == Query(os)
    ensures 1 <= attempts <= MaxRetries
    ensures r.Success? ==> |r.value| <= os(attempts - 1).sizes.numPaths
  {
    calls := [];
    attempts := 0;
    while attempts < MaxRetries
      invariant attempts <= MaxRetries
      invariant forall j :: 0 <= j < attempts ==> TooSmall(os(j))
      invariant Query(os).result == QueryFrom(os, attempts).result
      invariant Query(os).calls == calls + QueryFrom(os, attempts).calls
      invariant Query(os).attempts == attempts + QueryFrom(os, attempts).attempts
      decreases MaxRetries - attempts
    {
      var retry, settled, attemptCalls := RunAttempt(os(attempts));
      calls := calls + attemptCalls;
      attempts := attempts + 1;
      if !retry {
        r := settled;
        return;
      }
    }
    r := Failure(Errno(ErrorInsufficientBuffer));
  }
}
