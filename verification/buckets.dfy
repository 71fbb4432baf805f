/**
 * Locale buckets and the two dictionary operations the extraction performs on
 * them: registering a locale (`ContainsKey` then `Add` of an empty bucket) and
 * adding a key/value pair to a registered locale's bucket (the indexer, then
 * `Dictionary.Add`, which throws on a key that is already present).
 *
 * The outer dictionary and every bucket are only ever added to, so their
 * enumeration order is insertion order: both are modelled as sequences.
 */
module Buckets {
  import opened Wrappers

  /** One key/value pair of a bucket. */
  datatype Pair = Pair(key: string, value: string)

  /** The bucket of one locale code: its pairs in insertion order. */
  datatype Bucket = Bucket(code: string, pairs: seq<Pair>)

  /**
   * The two exceptions extraction can raise: the indexer's KeyNotFoundException
   * for a locale that has no bucket, and Dictionary.Add's ArgumentException for
   * a key the bucket already holds.
   */
  datatype ExtractError = UnknownLocale(code: string) | DuplicateKey(code: string, key: string)

  /** One dictionary operation of the extraction, in the order it is performed. */
  datatype Step =
    | Declare(code: string)                          // make sure `code` has a bucket
    | Put(code: string, key: string, value: string)  // add key/value to the bucket of `code`

  /** The locale codes of the buckets, in order. */
  function Codes(d: seq<Bucket>): seq<string>
  {
    seq(|d|, i requires 0 <= i < |d| => d[i].code)
  }

  /** The keys of a bucket's pairs, in order. */
  function KeysOf(ps: seq<Pair>): seq<string>
  {
    seq(|ps|, i requires 0 <= i < |ps| => ps[i].key)
  }

  ghost predicate Distinct(s: seq<string>)
  {
    forall i, j :: 0 <= i < j < |s| ==> s[i] != s[j]
  }

  /** A dictionary of buckets: distinct locale codes, and distinct keys in every bucket. */
  ghost predicate WellFormed(d: seq<Bucket>)
  {
    Distinct(Codes(d)) && forall i :: 0 <= i < |d| ==> Distinct(KeysOf(d[i].pairs))
  }

  /** The position of the first `x` in `s`, or |s| when `x` does not occur. */
  function IndexOf<T(==)>(s: seq<T>, x: T): (i: nat)
    ensures i <= |s|
    ensures i < |s| ==> s[i] == x
    ensures forall j :: 0 <= j < i ==> s[j] != x
  {
    if s == [] then 0 else if s[0] == x then 0 else 1 + IndexOf(s[1..], x)
  }

  /** The pairs of the bucket registered for `c`, or none when `c` has no bucket. */
  function Lookup(d: seq<Bucket>, c: string): seq<Pair>
  {
    var i := IndexOf(Codes(d), c);
    if i < |d| then d[i].pairs else []
  }

  /** Performs one step; a Put to an unregistered locale or of a present key throws. */
  function Apply(d: seq<Bucket>, s: Step): Result<seq<Bucket>, ExtractError>
  {
    match s
    case Declare(c) =>
      if c in Codes(d) then Ok(d) else Ok(d + [Bucket(c, [])])
    case Put(c, k, v) =>
      var i := IndexOf(Codes(d), c);
      if i == |d| then Err(UnknownLocale(c))
      else if k in KeysOf(d[i].pairs) then Err(DuplicateKey(c, k))
      else Ok(d[i := Bucket(c, d[i].pairs + [Pair(k, v)])])
  }

  /** A step fails exactly when it puts into an undeclared locale or repeats a key; a new locale adds one bucket. */
  lemma ApplyOutcome(d: seq<Bucket>, s: Step)
    ensures Apply(d, s).Err? <==> s.Put? && (s.code !in Codes(d) || s.key in KeysOf(Lookup(d, s.code)))
    ensures Apply(d, s).Err? && s.Put? ==>
      Apply(d, s).error == if s.code in Codes(d) then DuplicateKey(s.code, s.key) else UnknownLocale(s.code)
    ensures Apply(d, s).Ok? ==> |Apply(d, s).value| == |d| + if s.Declare? && s.code !in Codes(d) then 1 else 0
  {
  }

  /** Performs the steps in order; the first exception aborts the rest. */
  function Run(d: seq<Bucket>, steps: seq<Step>): Result<seq<Bucket>, ExtractError>
    decreases |steps|
  {
    if steps == [] then Ok(d)
    else
      match Apply(d, steps[0])
      case Err(e) => Err(e)
      case Ok(d1) => Run(d1, steps[1..])
  }

  /** The pairs that the Put steps add to the bucket of `c`, in order. */
  function PutsTo(steps: seq<Step>, c: string): (r: seq<Pair>)
    ensures |r| <= |steps|
    ensures forall p :: p in r <==> Put(c, p.key, p.value) in steps
  {
    if steps == [] then []
    else
      var s := steps[0];
      (if s.Put? && s.code == c then [Pair(s.key, s.value)] else []) + PutsTo(steps[1..], c)
  }

  /**
   * Whether step `s`, performed after `done` starting from `d`, goes through:
   * a Put needs its locale registered (already in `d`, or declared in `done`)
   * and a key the bucket does not hold yet.
   */
  ghost predicate Accepts(d: seq<Bucket>, done: seq<Step>, s: Step)
  {
    s.Put? ==>
      && (s.code in Codes(d) || Declare(s.code) in done)
      && s.key !in KeysOf(Lookup(d, s.code) + PutsTo(done, s.code))
  }

  /** The exception a rejected Put raises. */
  ghost function Raised(d: seq<Bucket>, done: seq<Step>, s: Step): ExtractError
    requires s.Put?
  {
    if s.code in Codes(d) || Declare(s.code) in done then DuplicateKey(s.code, s.key)
    else UnknownLocale(s.code)
  }

  /** Every step goes through, given the ones before it. */
  ghost predicate Admissible(d: seq<Bucket>, steps: seq<Step>)
  {
    forall q :: 0 <= q < |steps| ==> Accepts(d, steps[..q], steps[q])
  }

  // ---------------------------------------------------------------------
  // One step

  lemma IndexOfAppend(cs: seq<string>, x: string, c: string)
    ensures IndexOf(cs + [x], c) == if c in cs then IndexOf(cs, c) else if x == c then |cs| else |cs| + 1
  {
    var r, s := IndexOf(cs + [x], c), IndexOf(cs, c);
    if c in cs {
      assert s < |cs|;
      assert (cs + [x])[s] == c;
    } else if x == c {
      assert (cs + [x])[|cs|] == c;
    }
  }

  lemma CodesAppend(d: seq<Bucket>, b: Bucket)
    ensures Codes(d + [b]) == Codes(d) + [b.code]
  {
  }

  lemma CodesUpdate(d: seq<Bucket>, i: nat, b: Bucket)
    requires i < |d| && b.code == d[i].code
    ensures Codes(d[i := b]) == Codes(d)
  {
  }

  lemma KeysOfAppend(ps: seq<Pair>, qs: seq<Pair>)
    ensures KeysOf(ps + qs) == KeysOf(ps) + KeysOf(qs)
  {
  }

  /** A step only ever adds a locale code, and only for a Declare of a new one. */
  lemma ApplyCodes(d: seq<Bucket>, s: Step)
    requires Apply(d, s).Ok?
    ensures Codes(Apply(d, s).value) == if s.Declare? && s.code !in Codes(d) then Codes(d) + [s.code] else Codes(d)
  {
    match s
    case Declare(c) =>
      if c !in Codes(d) { CodesAppend(d, Bucket(c, [])); }
    case Put(c, k, v) =>
      var i := IndexOf(Codes(d), c);
      CodesUpdate(d, i, Bucket(c, d[i].pairs + [Pair(k, v)]));
  }

  /** A step appends exactly its own pair to its own locale's bucket and changes no other bucket. */
  lemma ApplyLookup(d: seq<Bucket>, s: Step, c: string)
    requires Apply(d, s).Ok?
    ensures Lookup(Apply(d, s).value, c) == Lookup(d, c) + if s.Put? && s.code == c then [Pair(s.key, s.value)] else []
  {
    var d1 := Apply(d, s).value;
    match s
    case Declare(x) =>
      if x !in Codes(d) {
        CodesAppend(d, Bucket(x, []));
        IndexOfAppend(Codes(d), x, c);
      }
    case Put(x, k, v) =>
      var i := IndexOf(Codes(d), x);
      CodesUpdate(d, i, Bucket(x, d[i].pairs + [Pair(k, v)]));
  }

  lemma ApplyWellFormed(d: seq<Bucket>, s: Step)
    requires WellFormed(d) && Apply(d, s).Ok?
    ensures WellFormed(Apply(d, s).value)
  {
    var d1 := Apply(d, s).value;
    ApplyCodes(d, s);
    match s
    case Declare(c) =>
      if c !in Codes(d) {
        assert d1 == d + [Bucket(c, [])];
        forall i | 0 <= i < |d1| ensures Distinct(KeysOf(d1[i].pairs)) {
          if i < |d| { assert d1[i] == d[i]; }
        }
      }
    case Put(c, k, v) =>
      var i := IndexOf(Codes(d), c);
      var ps := d[i].pairs + [Pair(k, v)];
      KeysOfAppend(d[i].pairs, [Pair(k, v)]);
      assert KeysOf(ps) == KeysOf(d[i].pairs) + [k];
      assert Distinct(KeysOf(ps));
  }

  // ---------------------------------------------------------------------
  // Runs of steps

  /** Running `a + b` is running `a`, then `b` from where `a` ended. */
  lemma {:induction false} RunAppend(d: seq<Bucket>, a: seq<Step>, b: seq<Step>)
    ensures Run(d, a + b) == if Run(d, a).Err? then Err(Run(d, a).error) else Run(Run(d, a).value, b)
    decreases |a|
  {
    if a == [] {
      assert a + b == b;
    } else {
      assert (a + b)[0] == a[0];
      assert (a + b)[1..] == a[1..] + b;
      match Apply(d, a[0])
      case Err(e) =>
      case Ok(d1) => RunAppend(d1, a[1..], b);
    }
  }

  /** Running a step followed by more steps. */
  lemma RunCons(d: seq<Bucket>, x: Step, rest: seq<Step>)
    ensures Run(d, [x] + rest) == if Apply(d, x).Err? then Err(Apply(d, x).error) else Run(Apply(d, x).value, rest)
  {
    assert ([x] + rest)[0] == x;
    assert ([x] + rest)[1..] == rest;
  }

  /** After a run, the registered locales are the ones before it plus every declared one. */
  lemma {:induction false} RunCodes(d: seq<Bucket>, steps: seq<Step>)
    requires Run(d, steps).Ok?
    ensures forall c :: c in Codes(Run(d, steps).value) <==> c in Codes(d) || Declare(c) in steps
    decreases |steps|
  {
    if steps != [] {
      var d1 := Apply(d, steps[0]).value;
      assert Run(d, steps) == Run(d1, steps[1..]);
      ApplyCodes(d, steps[0]);
      RunCodes(d1, steps[1..]);
      forall c ensures Declare(c) in steps <==> steps[0] == Declare(c) || Declare(c) in steps[1..] {
        assert steps == [steps[0]] + steps[1..];
      }
    }
  }

  /** After a run, every bucket holds what it held before, then the pairs put to it, in order. */
  lemma {:induction false} RunLookup(d: seq<Bucket>, steps: seq<Step>, c: string)
    requires Run(d, steps).Ok?
    ensures Lookup(Run(d, steps).value, c) == Lookup(d, c) + PutsTo(steps, c)
    decreases |steps|
  {
    if steps != [] {
      var s := steps[0];
      var d1 := Apply(d, s).value;
      var here := if s.Put? && s.code == c then [Pair(s.key, s.value)] else [];
      assert Run(d, steps) == Run(d1, steps[1..]);
      assert PutsTo(steps, c) == here + PutsTo(steps[1..], c);
      ApplyLookup(d, s, c);
      RunLookup(d1, steps[1..], c);
      assert Lookup(d, c) + here + PutsTo(steps[1..], c) == Lookup(d, c) + (here + PutsTo(steps[1..], c));
    }
  }

  lemma {:induction false} RunWellFormed(d: seq<Bucket>, steps: seq<Step>)
    requires WellFormed(d) && Run(d, steps).Ok?
    ensures WellFormed(Run(d, steps).value)
    decreases |steps|
  {
    if steps != [] {
      ApplyWellFormed(d, steps[0]);
      RunWellFormed(Apply(d, steps[0]).value, steps[1..]);
    }
  }

  /**
   * A step taken after a successful run of `done` goes through exactly when it
   * is accepted, and a rejected Put raises the exception `Raised` names.
   */
  lemma StepAfterRun(d: seq<Bucket>, done: seq<Step>, s: Step)
    requires Run(d, done).Ok?
    ensures Apply(Run(d, done).value, s).Ok? <==> Accepts(d, done, s)
    ensures Apply(Run(d, done).value, s).Err? ==> s.Put? && Apply(Run(d, done).value, s).error == Raised(d, done, s)
  {
    if s.Put? {
      var dq := Run(d, done).value;
      RunCodes(d, done);
      RunLookup(d, done, s.code);
      var i := IndexOf(Codes(dq), s.code);
      assert i < |dq| <==> s.code in Codes(dq);
      if i < |dq| {
        assert Lookup(dq, s.code) == dq[i].pairs;
      }
    }
  }

  lemma {:induction false} RunPrefixOk(d: seq<Bucket>, steps: seq<Step>, n: nat)
    requires n <= |steps| && Admissible(d, steps)
    ensures Run(d, steps[..n]).Ok?
  {
    if n > 0 {
      RunPrefixOk(d, steps, n - 1);
      assert steps[..n] == steps[..n - 1] + [steps[n - 1]];
      RunAppend(d, steps[..n - 1], [steps[n - 1]]);
      assert Accepts(d, steps[..n - 1], steps[n - 1]);
      StepAfterRun(d, steps[..n - 1], steps[n - 1]);
    }
  }

  /** A run goes through exactly when every one of its steps is accepted. */
  lemma RunOkIff(d: seq<Bucket>, steps: seq<Step>)
    ensures Run(d, steps).Ok? <==> Admissible(d, steps)
  {
    if Run(d, steps).Ok? {
      forall q | 0 <= q < |steps| ensures Accepts(d, steps[..q], steps[q]) {
        assert steps == steps[..q] + steps[q..];
        RunAppend(d, steps[..q], steps[q..]);
        StepAfterRun(d, steps[..q], steps[q]);
      }
    }
    if Admissible(d, steps) {
      RunPrefixOk(d, steps, |steps|);
      assert steps[..|steps|] == steps;
    }
  }

  lemma {:induction false} FirstRejected(d: seq<Bucket>, steps: seq<Step>) returns (q: nat)
    requires !Admissible(d, steps)
    ensures q < |steps| && Admissible(d, steps[..q]) && !Accepts(d, steps[..q], steps[q])
  {
    var n := |steps| - 1;
    var init := steps[..n];
    forall j | 0 <= j < n ensures init[..j] == steps[..j] && init[j] == steps[j] { }
    if Admissible(d, init) {
      q := n;
    } else {
      q := FirstRejected(d, init);
    }
  }

  /**
   * A run that throws throws at its first rejected step, with the exception
   * that step raises: UnknownLocale for a locale nobody registered so far,
   * DuplicateKey for a key already in the bucket.
   */
  lemma FirstFailure(d: seq<Bucket>, steps: seq<Step>) returns (q: nat)
    requires Run(d, steps).Err?
    ensures q < |steps| && steps[q].Put?
    ensures Admissible(d, steps[..q]) && !Accepts(d, steps[..q], steps[q])
    ensures Run(d, steps).error == Raised(d, steps[..q], steps[q])
  {
    RunOkIff(d, steps);
    q := FirstRejected(d, steps);
    RunOkIff(d, steps[..q]);
    assert steps == steps[..q] + steps[q..];
    RunAppend(d, steps[..q], steps[q..]);
    StepAfterRun(d, steps[..q], steps[q]);
  }

  /** A Put to a locale that is neither registered nor declared earlier in the run aborts it. */
  lemma RunFailsOnUndeclared(d: seq<Bucket>, steps: seq<Step>, q: nat)
    requires q < |steps| && steps[q].Put?
    requires steps[q].code !in Codes(d) && Declare(steps[q].code) !in steps[..q]
    ensures Run(d, steps).Err?
  {
    RunOkIff(d, steps);
  }

  /** Two Puts of the same key to the same locale abort the run, whatever their values. */
  lemma RunFailsOnRepeat(d: seq<Bucket>, steps: seq<Step>, p: nat, q: nat)
    requires p < q < |steps| && steps[p].Put? && steps[q].Put?
    requires steps[p].code == steps[q].code && steps[p].key == steps[q].key
    ensures Run(d, steps).Err?
  {
    RunOkIff(d, steps);
    var c := steps[q].code;
    var done := steps[..q];
    assert done[p] == steps[p];
    var pair := Pair(steps[p].key, steps[p].value);
    assert pair in PutsTo(done, c);
    var ps := Lookup(d, c) + PutsTo(done, c);
    assert pair in ps;
    var j :| 0 <= j < |ps| && ps[j] == pair;
    assert KeysOf(ps)[j] == steps[q].key;
  }
}
