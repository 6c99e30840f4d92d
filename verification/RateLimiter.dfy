/**
 The in-memory rate limiter (internal/ratelimit/ratelimit.go): one fixed-window
 bucket per key in a shared map, swept whenever a fresh window opens.

 Times are in any integral unit; attempts are listed in the order in which they
 take the limiter's lock.
 */
module RateLimiter {
  import opened Prelude

  datatype Bucket = Bucket(count: nat, start: int)

  datatype Config = Config(limit: int, window: int)

  type Buckets = map<string, Bucket>

  datatype Verdict = Allowed | Refused(retryAfter: int)

  datatype Attempt = Attempt(key: string, now: int)

  // ----- One key, no map, no sweep -------------------------------------------

  datatype Answer<T> = Answer(next: T, verdict: Verdict)

  predicate Elapsed(c: Config, b: Bucket, now: int) {
    now - b.start >= c.window
  }

  /** One attempt on a single key's bucket. */
  function Decide(c: Config, b: Option<Bucket>, now: int): Answer<Bucket> {
    if b.None? || Elapsed(c, b.value, now) then Answer(Bucket(1, now), Allowed)
    else
      var counted := b.value.(count := b.value.count + 1);
      Answer(counted, if counted.count > c.limit then Refused(c.window - (now - counted.start)) else Allowed)
  }

  /** The verdicts a lone key gets at `times`. */
  function Solo(c: Config, b: Option<Bucket>, times: seq<int>): seq<Verdict>
    decreases |times|
  {
    if times == [] then []
    else
      var answer := Decide(c, b, times[0]);
      [answer.verdict] + Solo(c, Some(answer.next), times[1..])
  }

  // ----- The shared map ------------------------------------------------------

  function Get(buckets: Buckets, key: string): Option<Bucket> {
    if key in buckets then Some(buckets[key]) else None
  }

  function Sweep(c: Config, buckets: Buckets, now: int): Buckets {
    map key | key in buckets && !Elapsed(c, buckets[key], now) :: buckets[key]
  }

  /** One attempt on the shared map. */
  function Admit(c: Config, buckets: Buckets, a: Attempt): Answer<Buckets> {
    var b := Get(buckets, a.key);
    var answer := Decide(c, b, a.now);
    var kept := if b.None? || Elapsed(c, b.value, a.now) then Sweep(c, buckets, a.now) else buckets;
    Answer(kept[a.key := answer.next], answer.verdict)
  }

  function Serve(c: Config, buckets: Buckets, attempts: seq<Attempt>): seq<Verdict>
    decreases |attempts|
  {
    if attempts == [] then []
    else
      var answer := Admit(c, buckets, attempts[0]);
      [answer.verdict] + Serve(c, answer.next, attempts[1..])
  }

  class Limiter {
    const limit: int
    const window: int
    var buckets: Buckets

    function Configuration(): Config { Config(limit, window) }

    constructor (limit: int, window: int)
      ensures this.limit == limit && this.window == window && buckets == map[]
    {
      this.limit, this.window, buckets := limit, window, map[];
    }

    /** sweepLocked. */
    method SweepLocked(now: int)
      modifies this
      ensures buckets == Sweep(Configuration(), old(buckets), now)
    {
      var todo := buckets.Keys;
      while todo != {}
        invariant todo <= buckets.Keys <= old(buckets).Keys
        invariant forall key :: key in buckets ==> buckets[key] == old(buckets)[key]
        invariant forall key :: key in old(buckets) && key !in todo ==>
          (key in buckets <==> !Elapsed(Configuration(), old(buckets)[key], now))
        decreases |todo|
      {
        var key :| key in todo;
        todo := todo - {key};
        if now - buckets[key].start >= window {
          buckets := buckets - {key};
        }
      }
    }

    /** Allow, at the time `now` read before the lock was taken. */
    method Allow(key: string, now: int) returns (ok: bool, retryAfter: int)
      modifies this
      ensures var answer := Admit(Configuration(), old(buckets), Attempt(key, now));
        && buckets == answer.next
        && ok == answer.verdict.Allowed?
        && retryAfter == if ok then 0 else answer.verdict.retryAfter
    {
      if key !in buckets || now - buckets[key].start >= window {
        SweepLocked(now);
        buckets := buckets[key := Bucket(1, now)];
        return true, 0;
      }
      var b := buckets[key];
      b := b.(count := b.count + 1);
      buckets := buckets[key := b];
      if b.count > limit {
        return false, window - (now - b.start);
      }
      return true, 0;
    }
  }

  // ----- Independence of keys ------------------------------------------------

  predicate Ordered(attempts: seq<Attempt>) {
    forall i, j :: 0 <= i < j < |attempts| ==> attempts[i].now <= attempts[j].now
  }

  function TimesOf(key: string, attempts: seq<Attempt>): seq<int> {
    if attempts == [] then []
    else if attempts[0].key == key then [attempts[0].now] + TimesOf(key, attempts[1..])
    else TimesOf(key, attempts[1..])
  }

  function VerdictsOf(key: string, attempts: seq<Attempt>, verdicts: seq<Verdict>): seq<Verdict>
    requires |attempts| == |verdicts|
  {
    if attempts == [] then []
    else if attempts[0].key == key then [verdicts[0]] + VerdictsOf(key, attempts[1..], verdicts[1..])
    else VerdictsOf(key, attempts[1..], verdicts[1..])
  }

  lemma {:induction false} ServeLength(c: Config, buckets: Buckets, attempts: seq<Attempt>)
    ensures |Serve(c, buckets, attempts)| == |attempts|
    decreases |attempts|
  {
    if attempts != [] {
      ServeLength(c, Admit(c, buckets, attempts[0]).next, attempts[1..]);
    }
  }

  /** The shared map after the first n attempts. */
  function SharedAfter(c: Config, attempts: seq<Attempt>, n: nat): Buckets
    requires n <= |attempts|
  {
    if n == 0 then map[] else Admit(c, SharedAfter(c, attempts, n - 1), attempts[n - 1]).next
  }

  /** The bucket a limiter of the key's own, never swept, would hold after the first n attempts. */
  function SoloAfter(c: Config, key: string, attempts: seq<Attempt>, n: nat): Option<Bucket>
    requires n <= |attempts|
  {
    if n == 0 then None
    else
      var before := SoloAfter(c, key, attempts, n - 1);
      if attempts[n - 1].key == key then Some(Decide(c, before, attempts[n - 1].now).next) else before
  }

  function SharedVerdict(c: Config, attempts: seq<Attempt>, i: nat): Verdict
    requires i < |attempts|
  {
    Admit(c, SharedAfter(c, attempts, i), attempts[i]).verdict
  }

  function SoloVerdict(c: Config, attempts: seq<Attempt>, i: nat): Verdict
    requires i < |attempts|
  {
    Decide(c, SoloAfter(c, attempts[i].key, attempts, i), attempts[i].now).verdict
  }

  /** The i-th attempt opens a fresh window, and so sweeps. */
  predicate Sweeps(c: Config, attempts: seq<Attempt>, i: nat)
    requires i < |attempts|
  {
    var b := Get(SharedAfter(c, attempts, i), attempts[i].key);
    b.None? || Elapsed(c, b.value, attempts[i].now)
  }

  predicate NoneBetween(key: string, attempts: seq<Attempt>, i: nat, j: nat)
    requires j <= |attempts|
  {
    forall m :: i < m < j ==> attempts[m].key != key
  }

  /**
   The i-th attempt, another key's, sweeps when the key's window has run out by that
   attempt's time; the key's own next attempt, the j-th, falls inside the window still.
   */
  predicate CutShort(c: Config, key: string, attempts: seq<Attempt>, i: nat, j: nat)
    requires i < |attempts| && j < |attempts|
  {
    && i < j && attempts[i].key != key && attempts[j].key == key && NoneBetween(key, attempts, i, j)
    && Sweeps(c, attempts, i)
    && var b := SoloAfter(c, key, attempts, i);
       b.Some? && attempts[j].now < b.value.start + c.window <= attempts[i].now
  }

  /** No sweep ever ends a window of the key's that an attempt of its own still falls into. */
  predicate Undisturbed(c: Config, key: string, attempts: seq<Attempt>, n: nat)
    requires n <= |attempts|
  {
    forall i, j :: 0 <= i < j < n ==> !CutShort(c, key, attempts, i, j)
  }

  /** After each of its own attempts the key's shared bucket is what its own limiter would hold. */
  predicate InStep(c: Config, key: string, attempts: seq<Attempt>, n: nat)
    requires n <= |attempts|
  {
    forall j :: 0 <= j < n && attempts[j].key == key ==>
      Get(SharedAfter(c, attempts, j + 1), key) == SoloAfter(c, key, attempts, j + 1)
  }

  /** The key's bucket is there, or some sweep since its last attempt has removed it, its window having run out. */
  predicate Tracked(c: Config, key: string, attempts: seq<Attempt>, n: nat)
    requires n <= |attempts|
  {
    var shared, solo := Get(SharedAfter(c, attempts, n), key), SoloAfter(c, key, attempts, n);
    || shared == solo
    || (shared == None && exists i :: 0 <= i < n && SweptAt(c, key, attempts, i, n))
  }

  predicate SweptAt(c: Config, key: string, attempts: seq<Attempt>, i: nat, n: nat)
    requires i < n <= |attempts|
  {
    && attempts[i].key != key && NoneBetween(key, attempts, i, n) && Sweeps(c, attempts, i)
    && var b := SoloAfter(c, key, attempts, i);
       b.Some? && b.value.start + c.window <= attempts[i].now
  }

  lemma {:induction false} SoloUnchanged(c: Config, key: string, attempts: seq<Attempt>, i: nat, n: nat)
    requires i <= n <= |attempts| && forall m :: i <= m < n ==> attempts[m].key != key
    ensures SoloAfter(c, key, attempts, n) == SoloAfter(c, key, attempts, i)
  {
    if i < n {
      SoloUnchanged(c, key, attempts, i, n - 1);
    }
  }

  /** An attempt of another key leaves the bucket, or sweeps it away. */
  lemma OthersOnlySweep(c: Config, key: string, attempts: seq<Attempt>, n: nat)
    requires n < |attempts| && attempts[n].key != key
    ensures var before, after := Get(SharedAfter(c, attempts, n), key), Get(SharedAfter(c, attempts, n + 1), key);
      after ==
        if before.Some? && Sweeps(c, attempts, n) && Elapsed(c, before.value, attempts[n].now) then None else before
  {
  }

  lemma OwnAttempt(c: Config, key: string, attempts: seq<Attempt>, n: nat)
    requires n < |attempts| && attempts[n].key == key
    ensures var before := Get(SharedAfter(c, attempts, n), key);
      && Get(SharedAfter(c, attempts, n + 1), key) == Some(Decide(c, before, attempts[n].now).next)
      && SharedVerdict(c, attempts, n) == Decide(c, before, attempts[n].now).verdict
  {
  }

  lemma SweptStays(c: Config, key: string, attempts: seq<Attempt>, i: nat, n: nat)
    requires i < n < |attempts| && SweptAt(c, key, attempts, i, n) && attempts[n].key != key
    ensures SweptAt(c, key, attempts, i, n + 1)
  {
  }

  /** Whoever sweeps the bucket, its window had run out by then. */
  lemma SweptNow(c: Config, key: string, attempts: seq<Attempt>, n: nat)
    requires n < |attempts| && attempts[n].key != key && Sweeps(c, attempts, n)
    requires var b := SoloAfter(c, key, attempts, n); b.Some? && Elapsed(c, b.value, attempts[n].now)
    ensures SweptAt(c, key, attempts, n, n + 1)
  {
  }

  lemma TrackedStep(c: Config, key: string, attempts: seq<Attempt>, n: nat)
    requires n < |attempts| && attempts[n].key != key && Tracked(c, key, attempts, n)
    ensures Tracked(c, key, attempts, n + 1)
  {
    OthersOnlySweep(c, key, attempts, n);
    SoloUnchanged(c, key, attempts, n, n + 1);
    hide SharedAfter, SoloAfter, Sweeps, SweptAt;
    var shared, solo := Get(SharedAfter(c, attempts, n), key), SoloAfter(c, key, attempts, n);
    if shared == solo {
      if shared.Some? && Sweeps(c, attempts, n) && Elapsed(c, shared.value, attempts[n].now) {
        SweptNow(c, key, attempts, n);
      }
    } else {
      var i :| 0 <= i < n && SweptAt(c, key, attempts, i, n);
      SweptStays(c, key, attempts, i, n);
    }
  }

  /** At an attempt of its own an undisturbed key is back in step, and gets its own limiter's verdict. */
  lemma BackInStep(c: Config, key: string, attempts: seq<Attempt>, n: nat)
    requires n < |attempts| && attempts[n].key == key && Tracked(c, key, attempts, n)
    requires forall i :: 0 <= i < n ==> !CutShort(c, key, attempts, i, n)
    ensures Get(SharedAfter(c, attempts, n + 1), key) == SoloAfter(c, key, attempts, n + 1)
    ensures SharedVerdict(c, attempts, n) == SoloVerdict(c, attempts, n)
  {
    OwnAttempt(c, key, attempts, n);
    var shared, solo := Get(SharedAfter(c, attempts, n), key), SoloAfter(c, key, attempts, n);
    if shared != solo {
      var i :| 0 <= i < n && SweptAt(c, key, attempts, i, n);
      SoloUnchanged(c, key, attempts, i, n);
      assert !CutShort(c, key, attempts, i, n);
    }
    hide SharedAfter, Sweeps;
  }

  lemma {:induction false} UndisturbedIsTracked(c: Config, key: string, attempts: seq<Attempt>, n: nat)
    requires n <= |attempts| && Undisturbed(c, key, attempts, n)
    ensures Tracked(c, key, attempts, n) && InStep(c, key, attempts, n)
    ensures forall j :: 0 <= j < n && attempts[j].key == key ==>
      SharedVerdict(c, attempts, j) == SoloVerdict(c, attempts, j)
  {
    hide SharedAfter, SoloAfter, CutShort, SharedVerdict, SoloVerdict;
    if n > 0 {
      UndisturbedIsTracked(c, key, attempts, n - 1);
      if attempts[n - 1].key == key {
        BackInStep(c, key, attempts, n - 1);
      } else {
        hide Tracked;
        TrackedStep(c, key, attempts, n - 1);
      }
    } else {
      NothingYet(c, key, attempts);
    }
  }

  lemma NothingYet(c: Config, key: string, attempts: seq<Attempt>)
    ensures Get(SharedAfter(c, attempts, 0), key) == None == SoloAfter(c, key, attempts, 0)
  {
  }

  lemma {:induction false} SoloCounts(c: Config, key: string, attempts: seq<Attempt>, n: nat)
    requires n <= |attempts|
    ensures SoloAfter(c, key, attempts, n).Some? ==> SoloAfter(c, key, attempts, n).value.count >= 1
  {
    if n > 0 {
      SoloCounts(c, key, attempts, n - 1);
    }
  }

  lemma {:induction false} InStepOrGone(c: Config, key: string, attempts: seq<Attempt>, n: nat)
    requires n <= |attempts| && InStep(c, key, attempts, n)
    ensures var shared := Get(SharedAfter(c, attempts, n), key);
      shared == None || shared == SoloAfter(c, key, attempts, n)
  {
    hide SharedAfter, SoloAfter, Sweeps;
    if n == 0 {
      NothingYet(c, key, attempts);
    } else {
      InStepOrGone(c, key, attempts, n - 1);
      if attempts[n - 1].key != key {
        OthersOnlySweep(c, key, attempts, n - 1);
        SoloUnchanged(c, key, attempts, n - 1, n);
      }
    }
  }

  lemma {:induction false} GoneStaysGone(c: Config, key: string, attempts: seq<Attempt>, i: nat, n: nat)
    requires i <= n <= |attempts| && forall m :: i <= m < n ==> attempts[m].key != key
    requires Get(SharedAfter(c, attempts, i), key) == None
    ensures Get(SharedAfter(c, attempts, n), key) == None
  {
    if i < n {
      hide SharedAfter, Sweeps;
      GoneStaysGone(c, key, attempts, i, n - 1);
      OthersOnlySweep(c, key, attempts, n - 1);
    }
  }

  /** A window cut short is opened anew by the shared limiter, while the key's own limiter goes on counting. */
  lemma CutShortFallsOut(c: Config, key: string, attempts: seq<Attempt>, i: nat, j: nat)
    requires i < |attempts| && j < |attempts| && CutShort(c, key, attempts, i, j) && InStep(c, key, attempts, i)
    ensures Get(SharedAfter(c, attempts, j + 1), key) == Some(Bucket(1, attempts[j].now))
    ensures var solo := SoloAfter(c, key, attempts, j + 1);
      solo.Some? && solo.value.count >= 2 && attempts[j].now < solo.value.start + c.window
  {
    InStepOrGone(c, key, attempts, i);
    OthersOnlySweep(c, key, attempts, i);
    GoneStaysGone(c, key, attempts, i + 1, j);
    OwnAttempt(c, key, attempts, j);
    SoloUnchanged(c, key, attempts, i, j);
    SoloCounts(c, key, attempts, i);
    hide SharedAfter, Sweeps, InStep;
  }

  lemma InStepLess(c: Config, key: string, attempts: seq<Attempt>, i: nat, n: nat)
    requires i <= n <= |attempts| && InStep(c, key, attempts, n)
    ensures InStep(c, key, attempts, i)
  {
    hide SharedAfter, SoloAfter;
  }

  /**
   After each of its attempts a key's shared bucket is exactly its own limiter's if
   and only if no sweep comes, in lock order, at a time its window has run out by and
   before an attempt of its own still inside that window.
   */
  lemma InStepIff(c: Config, key: string, attempts: seq<Attempt>)
    ensures InStep(c, key, attempts, |attempts|) <==> Undisturbed(c, key, attempts, |attempts|)
  {
    if Undisturbed(c, key, attempts, |attempts|) {
      UndisturbedIsTracked(c, key, attempts, |attempts|);
    } else {
      var i, j :| 0 <= i < j < |attempts| && CutShort(c, key, attempts, i, j);
      if InStep(c, key, attempts, |attempts|) {
        InStepLess(c, key, attempts, i, |attempts|);
        CutShortFallsOut(c, key, attempts, i, j);
      }
    }
    hide SharedAfter, SoloAfter;
  }

  /** The verdicts of a run agree exactly when they do attempt by attempt. */
  lemma {:induction false} VerdictsPointwise(c: Config, key: string, attempts: seq<Attempt>, n: nat)
    requires n <= |attempts|
    ensures |Serve(c, SharedAfter(c, attempts, n), attempts[n..])| == |attempts| - n
    ensures VerdictsOf(key, attempts[n..], Serve(c, SharedAfter(c, attempts, n), attempts[n..])) ==
            Solo(c, SoloAfter(c, key, attempts, n), TimesOf(key, attempts[n..])) <==>
      forall j :: n <= j < |attempts| && attempts[j].key == key ==>
        SharedVerdict(c, attempts, j) == SoloVerdict(c, attempts, j)
    decreases |attempts| - n
  {
    var rest := attempts[n..];
    ServeLength(c, SharedAfter(c, attempts, n), rest);
    if n < |attempts| {
      VerdictsPointwise(c, key, attempts, n + 1);
      assert rest[0] == attempts[n] && rest[1..] == attempts[n + 1..];
      var shared, solo := SharedAfter(c, attempts, n), SoloAfter(c, key, attempts, n);
      var next := SharedAfter(c, attempts, n + 1);
      assert Serve(c, shared, rest) == [SharedVerdict(c, attempts, n)] + Serve(c, next, rest[1..]);
      assert Serve(c, shared, rest)[1..] == Serve(c, next, rest[1..]);
      if attempts[n].key == key {
        OwnVerdicts(c, key, attempts, n);
        ConsEqual(SharedVerdict(c, attempts, n), VerdictsOf(key, rest[1..], Serve(c, next, rest[1..])),
                  SoloVerdict(c, attempts, n), Solo(c, SoloAfter(c, key, attempts, n + 1), TimesOf(key, rest[1..])));
      } else {
        SoloUnchanged(c, key, attempts, n, n + 1);
      }
      hide SharedAfter, SoloAfter, SharedVerdict, SoloVerdict, Decide, Admit, Serve, Solo;
    }
  }

  lemma ConsEqual<T>(x: T, a: seq<T>, y: T, b: seq<T>)
    ensures [x] + a == [y] + b <==> x == y && a == b
  {
    if [x] + a == [y] + b {
      assert ([x] + a)[0] == ([y] + b)[0] && ([x] + a)[1..] == ([y] + b)[1..];
    }
  }

  /** Unrolling Solo at an attempt of the key. */
  lemma OwnVerdicts(c: Config, key: string, attempts: seq<Attempt>, n: nat)
    requires n < |attempts| && attempts[n].key == key
    ensures Solo(c, SoloAfter(c, key, attempts, n), TimesOf(key, attempts[n..])) ==
      [SoloVerdict(c, attempts, n)] + Solo(c, SoloAfter(c, key, attempts, n + 1), TimesOf(key, attempts[n + 1..]))
  {
    assert attempts[n..][1..] == attempts[n + 1..];
    var times := TimesOf(key, attempts[n..]);
    assert times == [attempts[n].now] + TimesOf(key, attempts[n + 1..]);
    assert times[1..] == TimesOf(key, attempts[n + 1..]);
  }

  /**
   The swept map shared by all keys gives an undisturbed key exactly the verdicts that
   a limiter of its own, never swept, would give: they depend only on the times of
   that key's own attempts.
   */
  lemma KeysAreIndependent(c: Config, key: string, attempts: seq<Attempt>)
    requires Undisturbed(c, key, attempts, |attempts|)
    ensures |Serve(c, map[], attempts)| == |attempts|
    ensures VerdictsOf(key, attempts, Serve(c, map[], attempts)) == Solo(c, None, TimesOf(key, attempts))
  {
    UndisturbedIsTracked(c, key, attempts, |attempts|);
    VerdictsPointwise(c, key, attempts, 0);
    assert attempts[0..] == attempts;
  }

  /** Attempts in time order disturb no key. */
  lemma OrderedIsUndisturbed(c: Config, key: string, attempts: seq<Attempt>)
    requires Ordered(attempts)
    ensures Undisturbed(c, key, attempts, |attempts|)
  {
    forall i, j | 0 <= i < j < |attempts|
      ensures !CutShort(c, key, attempts, i, j)
    {
      assert attempts[i].now <= attempts[j].now;
    }
  }

  /**
   One sweep at time t changes what a key is told at `now` exactly if it ends a window
   that is full and still running.
   */
  lemma SweepShowsExactly(c: Config, buckets: Buckets, t: int, key: string, now: int)
    ensures Decide(c, Get(Sweep(c, buckets, t), key), now).verdict != Decide(c, Get(buckets, key), now).verdict <==>
      && key in buckets && buckets[key].count >= c.limit
      && now < buckets[key].start + c.window <= t
  {
  }

  // ----- A disturbance can be seen -----------------------------------------------

  function Repeat(a: Attempt, m: nat): seq<Attempt> {
    seq(m, _ => a)
  }

  lemma {:induction false} SamePrefix(c: Config, key: string, attempts: seq<Attempt>, longer: seq<Attempt>, n: nat)
    requires n <= |attempts| && n <= |longer| && forall i :: 0 <= i < n ==> longer[i] == attempts[i]
    ensures SharedAfter(c, longer, n) == SharedAfter(c, attempts, n)
    ensures SoloAfter(c, key, longer, n) == SoloAfter(c, key, attempts, n)
  {
    if n > 0 {
      SamePrefix(c, key, attempts, longer, n - 1);
    }
  }

  /** Repeating an attempt in running windows only counts up. */
  lemma {:induction false} RepeatsCount(
      c: Config, key: string, longer: seq<Attempt>, now: int, from: nat, t: nat, shared: Bucket, solo: Bucket)
    requires from + t <= |longer| && forall i :: from <= i < from + t ==> longer[i] == Attempt(key, now)
    requires Get(SharedAfter(c, longer, from), key) == Some(shared) && SoloAfter(c, key, longer, from) == Some(solo)
    requires !Elapsed(c, shared, now) && !Elapsed(c, solo, now)
    ensures Get(SharedAfter(c, longer, from + t), key) == Some(shared.(count := shared.count + t))
    ensures SoloAfter(c, key, longer, from + t) == Some(solo.(count := solo.count + t))
  {
    if t > 0 {
      RepeatsCount(c, key, longer, now, from, t - 1, shared, solo);
      OwnAttempt(c, key, longer, from + t - 1);
      hide SharedAfter;
    }
  }

  predicate VerdictsDiffer(c: Config, key: string, attempts: seq<Attempt>) {
    && |Serve(c, map[], attempts)| == |attempts|
    && VerdictsOf(key, attempts, Serve(c, map[], attempts)) != Solo(c, None, TimesOf(key, attempts))
  }

  lemma OneDiffers(c: Config, key: string, attempts: seq<Attempt>, j: nat)
    requires j < |attempts| && attempts[j].key == key && SharedVerdict(c, attempts, j) != SoloVerdict(c, attempts, j)
    ensures VerdictsDiffer(c, key, attempts)
  {
    VerdictsPointwise(c, key, attempts, 0);
    assert attempts[0..] == attempts;
    hide SharedVerdict, SoloVerdict;
  }

  /** How often the key tries again until its own limiter would refuse. */
  function Retries(c: Config, solo: Bucket): nat {
    if solo.count > c.limit then 0 else c.limit + 1 - solo.count
  }

  /** From the first disturbance on, the key's own limiter refuses before the shared one does. */
  lemma DisturbanceShowsAt(c: Config, key: string, attempts: seq<Attempt>, i: nat, j: nat)
    requires c.window > 0 && i < |attempts| && j < |attempts|
    requires CutShort(c, key, attempts, i, j) && InStep(c, key, attempts, i)
    ensures exists m: nat :: VerdictsDiffer(c, key, attempts[..j + 1] + Repeat(attempts[j], m))
  {
    CutShortFallsOut(c, key, attempts, i, j);
    var now, solo := attempts[j].now, SoloAfter(c, key, attempts, j + 1).value;
    var m := Retries(c, solo);
    var longer := attempts[..j + 1] + Repeat(attempts[j], m);
    SamePrefix(c, key, attempts, longer, j);
    SamePrefix(c, key, attempts, longer, j + 1);
    if m == 0 {
      OverLimitAtOnce(c, key, attempts, longer, i, j);
      OneDiffers(c, key, longer, j);
    } else {
      RetriedOverLimit(c, key, longer, now, j, solo);
      OneDiffers(c, key, longer, j + m);
    }
    hide CutShort, SharedAfter, SoloAfter, VerdictsDiffer, InStep;
    assert VerdictsDiffer(c, key, attempts[..j + 1] + Repeat(attempts[j], m));
  }

  lemma RetriedOverLimit(c: Config, key: string, longer: seq<Attempt>, now: int, j: nat, solo: Bucket)
    requires c.window > 0 && solo.count >= 2 && now < solo.start + c.window
    requires 0 < Retries(c, solo) && j + Retries(c, solo) < |longer|
    requires forall i :: j < i <= j + Retries(c, solo) ==> longer[i] == Attempt(key, now)
    requires Get(SharedAfter(c, longer, j + 1), key) == Some(Bucket(1, now))
    requires SoloAfter(c, key, longer, j + 1) == Some(solo)
    ensures longer[j + Retries(c, solo)].key == key
    ensures SharedVerdict(c, longer, j + Retries(c, solo)) == Allowed
    ensures SoloVerdict(c, longer, j + Retries(c, solo)).Refused?
  {
    hide SharedAfter, SoloAfter;
    var m := Retries(c, solo);
    RepeatsCount(c, key, longer, now, j + 1, m - 1, Bucket(1, now), solo);
    hide SharedVerdict;
    OwnAttempt(c, key, longer, j + m);
  }

  lemma OverLimitAtOnce(c: Config, key: string, attempts: seq<Attempt>, longer: seq<Attempt>, i: nat, j: nat)
    requires i < j < |attempts| && j < |longer| && CutShort(c, key, attempts, i, j) && InStep(c, key, attempts, i)
    requires longer[j] == attempts[j]
    requires SharedAfter(c, longer, j) == SharedAfter(c, attempts, j)
    requires SoloAfter(c, key, longer, j) == SoloAfter(c, key, attempts, j)
    requires SoloAfter(c, key, attempts, j + 1).Some? && SoloAfter(c, key, attempts, j + 1).value.count > c.limit
    ensures SharedVerdict(c, longer, j) == Allowed && SoloVerdict(c, longer, j).Refused?
  {
    InStepOrGone(c, key, attempts, i);
    OthersOnlySweep(c, key, attempts, i);
    GoneStaysGone(c, key, attempts, i + 1, j);
    SoloUnchanged(c, key, attempts, i, j);
    hide Sweeps, InStep;
  }

  /**
   So independence fails as soon as a key is disturbed: some prefix of the run, with the
   key trying again, shows it.
   */
  lemma {:induction false} DisturbanceShows(c: Config, key: string, attempts: seq<Attempt>, n: nat)
    requires c.window > 0 && n <= |attempts| && !Undisturbed(c, key, attempts, n)
    ensures exists j: nat, m: nat :: j < n && VerdictsDiffer(c, key, attempts[..j + 1] + Repeat(attempts[j], m))
  {
    hide CutShort, SharedAfter, SoloAfter, VerdictsDiffer;
    if !Undisturbed(c, key, attempts, n - 1) {
      DisturbanceShows(c, key, attempts, n - 1);
    } else {
      UndisturbedIsTracked(c, key, attempts, n - 1);
      var i: nat :| i < n - 1 && CutShort(c, key, attempts, i, n - 1);
      InStepLess(c, key, attempts, i, n - 1);
      DisturbanceShowsAt(c, key, attempts, i, n - 1);
    }
  }

  /** Trying again adds no disturbance. */
  lemma RetriesStayUndisturbed(c: Config, key: string, attempts: seq<Attempt>, j: nat, m: nat)
    requires j < |attempts| && Undisturbed(c, key, attempts, |attempts|)
    ensures var longer := attempts[..j + 1] + Repeat(attempts[j], m);
      Undisturbed(c, key, longer, |longer|)
  {
    var longer := attempts[..j + 1] + Repeat(attempts[j], m);
    forall i, n | 0 <= i < n < |longer|
      ensures !CutShort(c, key, longer, i, n)
    {
      if n <= j {
        CutShortBefore(c, key, attempts, longer, i, n);
      } else {
        assert longer[n] == longer[j] && (i >= j ==> longer[i] == longer[j]);
        hide SharedAfter, SoloAfter, Sweeps;
      }
    }
  }

  lemma CutShortBefore(c: Config, key: string, attempts: seq<Attempt>, longer: seq<Attempt>, i: nat, n: nat)
    requires i < n < |attempts| && n < |longer| && forall m :: 0 <= m <= n ==> longer[m] == attempts[m]
    ensures CutShort(c, key, longer, i, n) <==> CutShort(c, key, attempts, i, n)
  {
    SamePrefix(c, key, attempts, longer, i);
    hide SharedAfter, SoloAfter;
  }

  /**
   A key is independent of the others, whatever prefix of the run it sees and however
   often it then tries again, if and only if no sweep cuts a window of its short.
   */
  lemma IndependenceIff(c: Config, key: string, attempts: seq<Attempt>)
    requires c.window > 0
    ensures Undisturbed(c, key, attempts, |attempts|) <==>
      forall j: nat, m: nat :: j < |attempts| ==> !VerdictsDiffer(c, key, attempts[..j + 1] + Repeat(attempts[j], m))
  {
    hide SharedAfter, SoloAfter, CutShort;
    if Undisturbed(c, key, attempts, |attempts|) {
      forall j: nat, m: nat | j < |attempts|
        ensures !VerdictsDiffer(c, key, attempts[..j + 1] + Repeat(attempts[j], m))
      {
        RetriesStayUndisturbed(c, key, attempts, j, m);
        KeysAreIndependent(c, key, attempts[..j + 1] + Repeat(attempts[j], m));
      }
    } else {
      hide VerdictsDiffer;
      DisturbanceShows(c, key, attempts, |attempts|);
    }
  }

  /**
   The order matters: if the lock is taken out of time order, another key's
   attempt can sweep away a window that has not yet run out for this one.
   */
  lemma SweepNeedsOrder()
    ensures var c := Config(1, 10);
      var attempts := [Attempt("a", 0), Attempt("b", 10), Attempt("a", 9)];
      && |Serve(c, map[], attempts)| == 3
      && VerdictsOf("a", attempts, Serve(c, map[], attempts)) != Solo(c, None, TimesOf("a", attempts))
  {
    var c := Config(1, 10);
    var attempts := [Attempt("a", 0), Attempt("b", 10), Attempt("a", 9)];
    ServeLength(c, map[], attempts);
    var s1 := Admit(c, map[], attempts[0]).next;
    var s2 := Admit(c, s1, attempts[1]).next;
    assert s2 == map["b" := Bucket(1, 10)];
    assert attempts[1..] == [attempts[1], attempts[2]];
    assert attempts[1..][1..] == [attempts[2]] && [attempts[2]][1..] == [];
    assert Serve(c, s2, [attempts[2]]) == [Allowed];
    assert Serve(c, s1, attempts[1..]) == [Allowed] + Serve(c, s2, [attempts[2]]);
    assert Serve(c, map[], attempts) == [Allowed, Allowed, Allowed];
    var v := Serve(c, map[], attempts);
    assert v[1..] == [Allowed, Allowed] && v[1..][1..] == [Allowed];
    assert VerdictsOf("a", [attempts[2]], [Allowed]) == [Allowed] + VerdictsOf("a", [], []);
    assert VerdictsOf("a", attempts[1..], v[1..]) == [Allowed];
    assert VerdictsOf("a", attempts, v) == [Allowed, Allowed];
    assert TimesOf("a", [attempts[2]]) == [9] + TimesOf("a", []);
    assert TimesOf("a", attempts[1..]) == [9];
    assert TimesOf("a", attempts) == [0, 9];
    assert [0, 9][1..] == [9] && [9][1..] == [];
    assert Decide(c, None, 0) == Answer(Bucket(1, 0), Allowed);
    assert Decide(c, Some(Bucket(1, 0)), 9) == Answer(Bucket(2, 0), Refused(1));
    assert Solo(c, Some(Bucket(1, 0)), [9]) == [Refused(1)] + Solo(c, Some(Bucket(2, 0)), []);
    assert Solo(c, None, [0, 9]) == [Allowed] + Solo(c, Some(Bucket(1, 0)), [9]);
  }

  // ----- The sliding bound ---------------------------------------------------

  predicate Increasing(times: seq<int>) {
    forall i, j :: 0 <= i < j < |times| ==> times[i] <= times[j]
  }

  /** How many of the attempts at `times` are allowed within [from, to). */
  function AllowedWithin(times: seq<int>, verdicts: seq<Verdict>, from: int, to: int): nat
    requires |times| == |verdicts|
  {
    if times == [] then 0
    else
      (if from <= times[0] < to && verdicts[0].Allowed? then 1 else 0)
      + AllowedWithin(times[1..], verdicts[1..], from, to)
  }

  /** A fresh window always lets its first attempt through, even under a limit below one. */
  function PerWindow(c: Config): nat {
    if c.limit < 1 then 1 else c.limit
  }

  /** How many windows can start at or after x and before `to`. */
  function Windows(c: Config, x: int, to: int): nat
    requires c.window > 0
    decreases if to <= x then 0 else to - x
  {
    if to <= x then 0 else 1 + Windows(c, x + c.window, to)
  }

  /** What a bucket and the windows after it can still let through before `to`. */
  function Room(c: Config, b: Option<Bucket>, now: int, to: int): int
    requires c.window > 0
  {
    match b
    case None => PerWindow(c) * Windows(c, now, to)
    case Some(bucket) =>
      (if bucket.count < PerWindow(c) then PerWindow(c) - bucket.count else 0)
      + PerWindow(c) * Windows(c, bucket.start + c.window, to)
  }

  lemma {:induction false} WindowsShrink(c: Config, x: int, y: int, to: int)
    requires c.window > 0 && x <= y
    ensures Windows(c, y, to) <= Windows(c, x, to)
    decreases if to <= x then 0 else to - x
  {
    if x < to {
      if y < to {
        WindowsShrink(c, x + c.window, y + c.window, to);
      }
    }
  }

  lemma {:induction false} SoloLength(c: Config, b: Option<Bucket>, times: seq<int>)
    ensures |Solo(c, b, times)| == |times|
    decreases |times|
  {
    if times != [] {
      SoloLength(c, Some(Decide(c, b, times[0]).next), times[1..]);
    }
  }

  lemma Scale(n: nat, a: nat, b: nat)
    requires a <= b
    ensures n * a <= n * b
  {
  }

  lemma Distribute(n: nat, a: nat)
    ensures n * (1 + a) == n + n * a
  {
  }

  /** No more than the room there is gets allowed before `to`. */
  lemma {:induction false} AllowedFitsRoom(c: Config, b: Option<Bucket>, times: seq<int>, from: int, to: int, now: int)
    requires c.window > 0 && Increasing(times) && (times != [] ==> now <= times[0])
    requires b.Some? ==> b.value.count >= 1
    ensures |Solo(c, b, times)| == |times|
    ensures AllowedWithin(times, Solo(c, b, times), from, to) <= Room(c, b, now, to)
    decreases |times|
  {
    SoloLength(c, b, times);
    if times != [] {
      var t, rest := times[0], times[1..];
      var answer := Decide(c, b, t);
      assert Solo(c, b, times)[1..] == Solo(c, Some(answer.next), rest);
      AllowedFitsRoom(c, Some(answer.next), rest, from, to, t);
      if t < to {
        AllowedRoom(c, b, t, to, now);
      } else {
        NothingAfter(rest, Solo(c, Some(answer.next), rest), from, to, t);
      }
    }
  }

  lemma AllowedRoom(c: Config, b: Option<Bucket>, t: int, to: int, now: int)
    requires c.window > 0 && now <= t < to
    requires b.Some? ==> b.value.count >= 1
    ensures var answer := Decide(c, b, t);
      (if answer.verdict.Allowed? then 1 else 0) + Room(c, Some(answer.next), t, to) <= Room(c, b, now, to)
  {
    var p := PerWindow(c);
    if b.None? || Elapsed(c, b.value, t) {
      var start := if b.None? then now else b.value.start + c.window;
      WindowsShrink(c, start, t, to);
      Scale(p, Windows(c, t, to), Windows(c, start, to));
      Distribute(p, Windows(c, t + c.window, to));
    }
  }

  lemma {:induction false} NothingAfter(times: seq<int>, verdicts: seq<Verdict>, from: int, to: int, t: int)
    requires |times| == |verdicts| && Increasing(times) && to <= t && (times != [] ==> t <= times[0])
    ensures AllowedWithin(times, verdicts, from, to) == 0
  {
    if times != [] {
      NothingAfter(times[1..], verdicts[1..], from, to, t);
    }
  }

  lemma {:induction false} WindowsInside(c: Config, x: int, to: int, k: nat)
    requires c.window > 0 && to - x <= k * c.window
    ensures Windows(c, x, to) <= k
    decreases k
  {
    if x < to {
      assert k > 0;
      assert (k - 1) * c.window == k * c.window - c.window;
      WindowsInside(c, x + c.window, to, k - 1);
    }
  }

  lemma {:induction false} AtMostFrom(c: Config, b: Option<Bucket>, times: seq<int>, from: int, k: nat)
    requires c.window > 0 && Increasing(times)
    requires b.Some? ==> b.value.count >= 1
    ensures |Solo(c, b, times)| == |times|
    ensures AllowedWithin(times, Solo(c, b, times), from, from + k * c.window) < (k + 1) * PerWindow(c)
    decreases |times|
  {
    SoloLength(c, b, times);
    var to := from + k * c.window;
    if times != [] {
      var t, rest := times[0], times[1..];
      var answer := Decide(c, b, t);
      assert Solo(c, b, times)[1..] == Solo(c, Some(answer.next), rest);
      if t < from {
        AtMostFrom(c, Some(answer.next), rest, from, k);
      } else {
        AllowedFitsRoom(c, b, times, from, to, t);
        RoomFromNow(c, b, times, from, t, k);
      }
    }
  }

  /** From the first attempt inside the interval on, there is room for k + 1 windows. */
  lemma RoomFromNow(c: Config, b: Option<Bucket>, times: seq<int>, from: int, t: int, k: nat)
    requires c.window > 0 && Increasing(times) && times != [] && times[0] == t && from <= t
    requires b.Some? ==> b.value.count >= 1
    requires |Solo(c, b, times)| == |times|
    ensures AllowedWithin(times, Solo(c, b, times), from, from + k * c.window) < (k + 1) * PerWindow(c)
  {
    var to := from + k * c.window;
    var p := PerWindow(c);
    if b.None? || Elapsed(c, b.value, t) {
      FreshFitsRoom(c, b, times, from, to, t);
      WindowsInside(c, t, to, k);
      Scale(p, Windows(c, t, to), k);
      Distribute(p, k);
    } else {
      AllowedFitsRoom(c, b, times, from, to, t);
      WindowsInside(c, b.value.start + c.window, to, k);
      Scale(p, Windows(c, b.value.start + c.window, to), k);
      Distribute(p, k);
    }
  }

  lemma FreshFitsRoom(c: Config, b: Option<Bucket>, times: seq<int>, from: int, to: int, t: int)
    requires c.window > 0 && Increasing(times) && times != [] && times[0] == t
    requires b.None? || Elapsed(c, b.value, t)
    ensures |Solo(c, b, times)| == |times|
    ensures AllowedWithin(times, Solo(c, b, times), from, to) <= PerWindow(c) * Windows(c, t, to)
  {
    assert Solo(c, b, times) == Solo(c, None, times);
    AllowedFitsRoom(c, None, times, from, to, t);
  }

  /** Fewer than (k+1) * Limit attempts of a key are allowed in any half-open interval of k windows. */
  lemma SlidingBound(c: Config, key: string, attempts: seq<Attempt>, from: int, k: nat)
    requires c.window > 0 && Ordered(attempts)
    ensures var times := TimesOf(key, attempts);
      var verdicts := Solo(c, None, times);
      && |Serve(c, map[], attempts)| == |attempts| && |verdicts| == |times|
      && VerdictsOf(key, attempts, Serve(c, map[], attempts)) == verdicts
      && AllowedWithin(times, verdicts, from, from + k * c.window) < (k + 1) * PerWindow(c)
  {
    OrderedIsUndisturbed(c, key, attempts);
    KeysAreIndependent(c, key, attempts);
    TimesAreOrdered(key, attempts);
    AtMostFrom(c, None, TimesOf(key, attempts), from, k);
  }

  lemma {:induction false} TimesBound(key: string, attempts: seq<Attempt>, low: int)
    requires forall i :: 0 <= i < |attempts| ==> low <= attempts[i].now
    ensures forall t :: t in TimesOf(key, attempts) ==> low <= t
  {
    if attempts != [] {
      TimesBound(key, attempts[1..], low);
    }
  }

  lemma {:induction false} TimesAreOrdered(key: string, attempts: seq<Attempt>)
    requires Ordered(attempts)
    ensures Increasing(TimesOf(key, attempts))
  {
    if attempts != [] {
      TimesAreOrdered(key, attempts[1..]);
      TimesBound(key, attempts[1..], attempts[0].now);
      var rest := TimesOf(key, attempts[1..]);
      assert forall i :: 0 <= i < |rest| ==> rest[i] in rest;
    }
  }

  // ----- The bound is attained -----------------------------------------------

  /** n attempts at time t. */
  function Burst(t: int, n: nat): (times: seq<int>)
    ensures |times| == n && forall i :: 0 <= i < n ==> times[i] == t
  {
    if n == 0 then [] else [t] + Burst(t, n - 1)
  }

  lemma {:induction false} BurstAllowed(c: Config, b: Bucket, t: int, n: nat, more: seq<int>, from: int, to: int)
    requires c.window > 0 && !Elapsed(c, b, t) && b.count + n <= c.limit && from <= t < to
    ensures var times := Burst(t, n) + more;
      && |Solo(c, Some(b), times)| == |times|
      && |Solo(c, Some(b.(count := b.count + n)), more)| == |more|
      && AllowedWithin(times, Solo(c, Some(b), times), from, to) ==
         n + AllowedWithin(more, Solo(c, Some(b.(count := b.count + n)), more), from, to)
    decreases n
  {
    var times := Burst(t, n) + more;
    SoloLength(c, Some(b), times);
    SoloLength(c, Some(b.(count := b.count + n)), more);
    if n == 0 {
      assert times == more;
    } else {
      var b' := b.(count := b.count + 1);
      assert times[0] == t && times[1..] == Burst(t, n - 1) + more;
      assert Decide(c, Some(b), t) == Answer(b', Allowed);
      assert Solo(c, Some(b), times)[1..] == Solo(c, Some(b'), times[1..]);
      BurstAllowed(c, b', t, n - 1, more, from, to);
    }
  }

  /** One limit's worth at the start of each of k windows from `start` on. */
  function Bursts(c: Config, start: int, k: nat): seq<int>
    requires c.limit >= 1
    decreases k
  {
    if k == 0 then [] else [start] + (Burst(start, c.limit - 1) + Bursts(c, start + c.window, k - 1))
  }

  lemma {:induction false} BurstsOrdered(c: Config, start: int, k: nat)
    requires c.limit >= 1 && c.window > 0
    ensures Increasing(Bursts(c, start, k)) && forall t :: t in Bursts(c, start, k) ==> start <= t
    decreases k
  {
    if k > 0 {
      var head, tail := [start] + Burst(start, c.limit - 1), Bursts(c, start + c.window, k - 1);
      BurstsOrdered(c, start + c.window, k - 1);
      assert Bursts(c, start, k) == head + tail;
      hide Bursts, Burst;
      assert forall i :: 0 <= i < |head| ==> head[i] == start;
      assert forall i :: 0 <= i < |tail| ==> tail[i] in tail;
    }
  }

  lemma OneOfMany(k: nat, w: int)
    requires k > 0 && w > 0
    ensures k * w == w + (k - 1) * w && (k - 1) * w >= 0
  {
  }

  /** All of them are allowed, if the key has no window running at the start. */
  lemma {:induction false} BurstsAllowed(c: Config, b: Option<Bucket>, start: int, k: nat, from: int)
    requires c.limit >= 1 && c.window > 0 && (b.None? || Elapsed(c, b.value, start)) && from <= start
    ensures var times := Bursts(c, start, k);
      && |Solo(c, b, times)| == |times|
      && (k > 0 ==> AllowedWithin(times, Solo(c, b, times), from, start + (k - 1) * c.window + 1) == k * c.limit)
    decreases k
  {
    var times := Bursts(c, start, k);
    SoloLength(c, b, times);
    if k > 0 {
      var more := Bursts(c, start + c.window, k - 1);
      var to := start + (k - 1) * c.window + 1;
      var first, full := Bucket(1, start), Bucket(c.limit, start);
      assert times[1..] == Burst(start, c.limit - 1) + more;
      assert Solo(c, b, times)[1..] == Solo(c, Some(first), times[1..]);
      OneOfMany(k, c.window);
      hide Bursts;
      BurstAllowed(c, first, start, c.limit - 1, more, from, to);
      BurstsAllowed(c, Some(full), start + c.window, k - 1, from);
      if k > 1 {
        OneOfMany(k - 1, c.window);
      }
      OneOfMany(k, c.limit);
    }
  }

  /**
   The bound is attained for every number of windows, wherever a window has room for
   two instants: after one attempt at time 0, limit - 1 just before its window closes
   and limit as each of the next k opens all get through.
   */
  lemma BoundIsAttained(c: Config, k: nat)
    requires c.limit >= 1 && c.window > 1 && k > 0
    ensures var times := [0] + (Burst(c.window - 1, c.limit - 1) + Bursts(c, c.window, k));
      && Increasing(times)
      && |Solo(c, None, times)| == |times|
      && AllowedWithin(times, Solo(c, None, times), 1, 1 + k * c.window) == (k + 1) * c.limit - 1
  {
    hide Bursts;
    var w, n := c.window, c.limit - 1;
    var tail := Bursts(c, w, k);
    var rest := Burst(w - 1, n) + tail;
    var times := [0] + rest;
    SoloLength(c, None, times);
    BurstsOrdered(c, w, k);
    assert forall i :: 0 <= i < |tail| ==> tail[i] in tail;
    assert times[1..] == rest;
    assert Solo(c, None, times)[1..] == Solo(c, Some(Bucket(1, 0)), rest);
    OneOfMany(k, w);
    BurstAllowed(c, Bucket(1, 0), w - 1, n, tail, 1, 1 + k * w);
    BurstsAllowed(c, Some(Bucket(c.limit, 0)), w, k, 1);
    assert (k + 1) * c.limit == k * c.limit + c.limit;
  }

  /**
   Where a window is a single instant, k of them let k limits through at most: the bound
   is then not attained, but for a limit of one.
   */
  lemma {:induction false} UnitWindowBound(c: Config, b: Option<Bucket>, times: seq<int>, from: int, k: nat)
    requires c.window == 1 && Increasing(times)
    requires b.Some? ==> b.value.count >= 1 && (times != [] ==> b.value.start <= times[0])
    ensures |Solo(c, b, times)| == |times|
    ensures AllowedWithin(times, Solo(c, b, times), from, from + k) <= k * PerWindow(c)
    decreases |times|
  {
    SoloLength(c, b, times);
    if times != [] {
      var t, rest := times[0], times[1..];
      var answer := Decide(c, b, t);
      assert Solo(c, b, times)[1..] == Solo(c, Some(answer.next), rest);
      if t < from {
        UnitWindowBound(c, Some(answer.next), rest, from, k);
      } else if t < from + k {
        UnitWindowFromNow(c, b, times, from, t, k);
      } else {
        NothingAfter(times, Solo(c, b, times), from, from + k, t);
      }
    }
  }

  lemma UnitWindowFromNow(c: Config, b: Option<Bucket>, times: seq<int>, from: int, t: int, k: nat)
    requires c.window == 1 && Increasing(times) && times != [] && times[0] == t && from <= t < from + k
    requires b.Some? ==> b.value.count >= 1 && b.value.start <= t
    ensures |Solo(c, b, times)| == |times|
    ensures AllowedWithin(times, Solo(c, b, times), from, from + k) <= k * PerWindow(c)
  {
    hide Solo, AllowedWithin, Increasing;
    var to, p := from + k, PerWindow(c);
    WindowsInside(c, t, to, k);
    Scale(p, Windows(c, t, to), k);
    if b.None? || Elapsed(c, b.value, t) {
      FreshFitsRoom(c, b, times, from, to, t);
    } else {
      AllowedFitsRoom(c, b, times, from, to, t);
      assert b.value.start + c.window == t + 1 && Windows(c, t, to) == 1 + Windows(c, t + 1, to);
      Distribute(p, Windows(c, t + 1, to));
      hide Windows;
    }
  }

  // ----- Waiting out a refusal -----------------------------------------------

  /**
   A refusal asks for a wait within (0, window], and the first attempt made
   once it is over is allowed, however many more were refused meanwhile.
   */
  lemma WaitingOutSucceeds(c: Config, b: Bucket, now: int, between: seq<int>, later: int)
    requires b.start <= now && Decide(c, Some(b), now).verdict.Refused?
    requires forall i :: 0 <= i < |between| ==> now <= between[i] < now + Decide(c, Some(b), now).verdict.retryAfter
    requires now + Decide(c, Some(b), now).verdict.retryAfter <= later
    ensures 0 < Decide(c, Some(b), now).verdict.retryAfter <= c.window
    ensures var verdicts := Solo(c, Some(Decide(c, Some(b), now).next), between + [later]);
      && |verdicts| == |between| + 1
      && (forall i :: 0 <= i < |between| ==> verdicts[i].Refused?)
      && verdicts[|between|] == Allowed
  {
    RefusedUntilItRunsOut(c, Decide(c, Some(b), now).next, between, later);
  }

  lemma {:induction false} RefusedUntilItRunsOut(c: Config, b: Bucket, between: seq<int>, later: int)
    requires b.count >= c.limit && Elapsed(c, b, later)
    requires forall i :: 0 <= i < |between| ==> !Elapsed(c, b, between[i])
    ensures var verdicts := Solo(c, Some(b), between + [later]);
      && |verdicts| == |between| + 1
      && (forall i :: 0 <= i < |between| ==> verdicts[i].Refused?)
      && verdicts[|between|] == Allowed
    decreases |between|
  {
    var times := between + [later];
    if between == [] {
      assert times[1..] == [];
    } else {
      assert times[1..] == between[1..] + [later];
      RefusedUntilItRunsOut(c, Decide(c, Some(b), between[0]).next, between[1..], later);
    }
  }
}
