/**
 * ExtractData: one pass over the catalog that registers a bucket for every
 * locale an entity declares, then adds every entry's value for every language
 * of the entry to that language's bucket.
 *
 * The pass is specified as the sequence of dictionary operations it performs,
 * in its own loop order (`CatalogSteps`), run by `Buckets.Run`.
 */
module Extraction {
  import opened Wrappers
  import opened Catalog
  import opened Buckets

  /** The Add an entry performs for one of its languages. */
  function PutStep(e: Entry, lang: Culture): Step
  {
    Put(LocaleCode(lang), e.key, ValueOf(e, lang))
  }

  /** The registrations for an entity's declared languages, in order. */
  function DeclareSteps(langs: seq<Culture>): (r: seq<Step>)
    ensures |r| == |langs|
    ensures forall j :: 0 <= j < |langs| ==> r[j] == Declare(LocaleCode(langs[j]))
  {
    if langs == [] then [] else [Declare(LocaleCode(langs[0]))] + DeclareSteps(langs[1..])
  }

  /** The Adds of one entry, one per language, in order. */
  function PutSteps(e: Entry, langs: seq<Culture>): (r: seq<Step>)
    ensures |r| == |langs|
    ensures forall j :: 0 <= j < |langs| ==> r[j] == PutStep(e, langs[j])
  {
    if langs == [] then [] else [PutStep(e, langs[0])] + PutSteps(e, langs[1..])
  }

  /** The Adds of a sequence of entries, entry after entry. */
  function EntriesSteps(es: seq<Entry>): seq<Step>
  {
    if es == [] then [] else PutSteps(es[0], es[0].languages) + EntriesSteps(es[1..])
  }

  /** What one entity contributes: its registrations first, then its entries' Adds. */
  function EntitySteps(e: Entity): seq<Step>
  {
    DeclareSteps(e.languages) + EntriesSteps(e.entries)
  }

  /** Every operation of the pass, entity after entity. */
  function CatalogSteps(cat: ResourceCatalog): seq<Step>
  {
    if cat == [] then [] else EntitySteps(cat[0]) + CatalogSteps(cat[1..])
  }

  /** The result of ExtractData: the buckets, or the exception that aborted the pass. */
  function Extract(cat: ResourceCatalog): Result<seq<Bucket>, ExtractError>
  {
    Run([], CatalogSteps(cat))
  }

  /** Some entity declares a language whose locale code is `c`. */
  ghost predicate Declares(cat: ResourceCatalog, c: string)
  {
    exists i, j :: 0 <= i < |cat| && 0 <= j < |cat[i].languages| && LocaleCode(cat[i].languages[j]) == c
  }

  /** Some entry, for one of its languages with locale code `c`, has key and value `p`. */
  ghost predicate Provides(cat: ResourceCatalog, c: string, p: Pair)
  {
    exists i, k, l ::
      && 0 <= i < |cat| && 0 <= k < |cat[i].entries| && 0 <= l < |cat[i].entries[k].languages|
      && LocaleCode(cat[i].entries[k].languages[l]) == c
      && p == Pair(cat[i].entries[k].key, ValueOf(cat[i].entries[k], cat[i].entries[k].languages[l]))
  }

  lemma CatalogStepsAt(cat: ResourceCatalog, i: nat)
    requires i < |cat|
    ensures CatalogSteps(cat[i..]) == DeclareSteps(cat[i].languages) + (EntriesSteps(cat[i].entries) + CatalogSteps(cat[i + 1..]))
  {
    assert cat[i..][1..] == cat[i + 1..];
  }

  lemma EntriesStepsAt(es: seq<Entry>, k: nat, later: seq<Step>)
    requires k < |es|
    ensures EntriesSteps(es[k..]) + later == PutSteps(es[k], es[k].languages) + (EntriesSteps(es[k + 1..]) + later)
  {
    assert es[k..][1..] == es[k + 1..];
  }

  lemma DeclareStepsAt(langs: seq<Culture>, j: nat, later: seq<Step>)
    requires j < |langs|
    ensures DeclareSteps(langs[j..]) + later == [Declare(LocaleCode(langs[j]))] + (DeclareSteps(langs[j + 1..]) + later)
  {
    assert langs[j..][1..] == langs[j + 1..];
  }

  lemma PutStepsAt(e: Entry, langs: seq<Culture>, l: nat, later: seq<Step>)
    requires l < |langs|
    ensures PutSteps(e, langs[l..]) + later == [PutStep(e, langs[l])] + (PutSteps(e, langs[l + 1..]) + later)
  {
    assert langs[l..][1..] == langs[l + 1..];
  }

  /** Registrations never throw. */
  lemma {:induction false} DeclareStepsOk(d: seq<Bucket>, langs: seq<Culture>)
    ensures Run(d, DeclareSteps(langs)).Ok?
    decreases |langs|
  {
    if langs != [] {
      RunCons(d, Declare(LocaleCode(langs[0])), DeclareSteps(langs[1..]));
      DeclareStepsOk(Apply(d, Declare(LocaleCode(langs[0]))).value, langs[1..]);
    }
  }

  /**
   * The loop over an entity's languages: a bucket is registered for every
   * locale code not registered yet (ContainsKey, then Add).
   */
  method RegisterLanguages(d0: seq<Bucket>, langs: seq<Culture>) returns (d: seq<Bucket>)
    ensures Run(d0, DeclareSteps(langs)) == Ok(d)
  {
    DeclareStepsOk(d0, langs);
    d := d0;
    var j := 0;
    while j < |langs|
      invariant 0 <= j <= |langs|
      invariant Run(d, DeclareSteps(langs[j..])) == Run(d0, DeclareSteps(langs))
    {
      var code := LocaleCode(langs[j]);
      DeclareStepsAt(langs, j, []);
      RunCons(d, Declare(code), DeclareSteps(langs[j + 1..]));
      assert DeclareSteps(langs[j..]) + [] == DeclareSteps(langs[j..]);
      assert DeclareSteps(langs[j + 1..]) + [] == DeclareSteps(langs[j + 1..]);
      if code !in Codes(d) {
        d := d + [Bucket(code, [])];
      }
      j := j + 1;
    }
  }

  /**
   * The loop over an entry's languages: the indexer finds the bucket of the
   * language's locale code (or throws), and Add puts the entry's value under
   * its key (or throws when the key is present).
   */
  method AddEntryValues(d0: seq<Bucket>, entry: Entry) returns (r: Result<seq<Bucket>, ExtractError>)
    ensures r == Run(d0, PutSteps(entry, entry.languages))
  {
    var d := d0;
    var l := 0;
    while l < |entry.languages|
      invariant 0 <= l <= |entry.languages|
      invariant Run(d, PutSteps(entry, entry.languages[l..])) == Run(d0, PutSteps(entry, entry.languages))
    {
      var lang := entry.languages[l];
      var code := LocaleCode(lang);
      var value := ValueOf(entry, lang);
      PutStepsAt(entry, entry.languages, l, []);
      assert PutSteps(entry, entry.languages[l..]) + [] == PutSteps(entry, entry.languages[l..]);
      assert PutSteps(entry, entry.languages[l + 1..]) + [] == PutSteps(entry, entry.languages[l + 1..]);
      RunCons(d, Put(code, entry.key, value), PutSteps(entry, entry.languages[l + 1..]));
      var idx := IndexOf(Codes(d), code);
      if idx == |d| {
        return Err(UnknownLocale(code));
      }
      if entry.key in KeysOf(d[idx].pairs) {
        return Err(DuplicateKey(code, entry.key));
      }
      d := d[idx := Bucket(code, d[idx].pairs + [Pair(entry.key, value)])];
      l := l + 1;
    }
    assert entry.languages[l..] == [];
    return Ok(d);
  }

  /** The loop over an entity's entries, each adding its values in turn. */
  method AddEntries(d0: seq<Bucket>, entries: seq<Entry>) returns (r: Result<seq<Bucket>, ExtractError>)
    ensures r == Run(d0, EntriesSteps(entries))
  {
    var d := d0;
    var k := 0;
    assert entries[0..] == entries;
    while k < |entries|
      invariant 0 <= k <= |entries|
      invariant Run(d, EntriesSteps(entries[k..])) == Run(d0, EntriesSteps(entries))
    {
      var entry := entries[k];
      EntriesStepsAt(entries, k, []);
      assert EntriesSteps(entries[k..]) + [] == EntriesSteps(entries[k..]);
      assert EntriesSteps(entries[k + 1..]) + [] == EntriesSteps(entries[k + 1..]);
      RunAppend(d, PutSteps(entry, entry.languages), EntriesSteps(entries[k + 1..]));
      var res := AddEntryValues(d, entry);
      if res.Err? {
        return Err(res.error);
      }
      d := res.value;
      k := k + 1;
    }
    assert entries[k..] == [];
    return Ok(d);
  }

  /**
   * The pass as the source performs it: for every entity, register its
   * languages, then add its entries' values; an exception aborts the pass.
   */
  method ExtractData(cat: ResourceCatalog) returns (r: Result<seq<Bucket>, ExtractError>)
    ensures r == Extract(cat)
  {
    var d: seq<Bucket> := [];
    var i := 0;
    while i < |cat|
      invariant 0 <= i <= |cat|
      invariant Run(d, CatalogSteps(cat[i..])) == Extract(cat)
    {
      var entity := cat[i];
      ghost var later := CatalogSteps(cat[i + 1..]);
      CatalogStepsAt(cat, i);
      RunAppend(d, DeclareSteps(entity.languages), EntriesSteps(entity.entries) + later);
      d := RegisterLanguages(d, entity.languages);
      RunAppend(d, EntriesSteps(entity.entries), later);
      var res := AddEntries(d, entity.entries);
      if res.Err? {
        return Err(res.error);
      }
      d := res.value;
      i := i + 1;
    }
    assert cat[i..] == [];
    return Ok(d);
  }

  // ---------------------------------------------------------------------
  // What the steps of a catalog are

  lemma DeclareStepsHas(langs: seq<Culture>, c: string)
    ensures Declare(c) in DeclareSteps(langs) <==> exists j :: 0 <= j < |langs| && LocaleCode(langs[j]) == c
  {
    var r := DeclareSteps(langs);
    if Declare(c) in r {
      var j :| 0 <= j < |r| && r[j] == Declare(c);
      assert LocaleCode(langs[j]) == c;
    }
    if exists j :: 0 <= j < |langs| && LocaleCode(langs[j]) == c {
      var j :| 0 <= j < |langs| && LocaleCode(langs[j]) == c;
      assert r[j] == Declare(c);
    }
  }

  lemma {:induction false} EntriesStepsHas(es: seq<Entry>, s: Step)
    ensures s in EntriesSteps(es) <==>
      exists k, l :: 0 <= k < |es| && 0 <= l < |es[k].languages| && s == PutStep(es[k], es[k].languages[l])
  {
    if es != [] {
      var head := PutSteps(es[0], es[0].languages);
      EntriesStepsHas(es[1..], s);
      if s in head {
        var l :| 0 <= l < |head| && head[l] == s;
        assert s == PutStep(es[0], es[0].languages[l]);
      } else if s in EntriesSteps(es[1..]) {
        var k, l :| 0 <= k < |es[1..]| && 0 <= l < |es[1..][k].languages| && s == PutStep(es[1..][k], es[1..][k].languages[l]);
        assert es[k + 1] == es[1..][k];
      }
      if exists k, l :: 0 <= k < |es| && 0 <= l < |es[k].languages| && s == PutStep(es[k], es[k].languages[l]) {
        var k, l :| 0 <= k < |es| && 0 <= l < |es[k].languages| && s == PutStep(es[k], es[k].languages[l]);
        if k == 0 {
          assert head[l] == s;
        } else {
          assert es[1..][k - 1] == es[k];
        }
      }
    }
  }

  /** The pass registers exactly the locale codes the entities declare. */
  lemma {:induction false} CatalogStepsDeclares(cat: ResourceCatalog, c: string)
    ensures Declare(c) in CatalogSteps(cat) <==> Declares(cat, c)
  {
    if cat != [] {
      var e := cat[0];
      DeclareStepsHas(e.languages, c);
      EntriesStepsHas(e.entries, Declare(c));
      CatalogStepsDeclares(cat[1..], c);
      if Declares(cat[1..], c) {
        var i, j :| 0 <= i < |cat[1..]| && 0 <= j < |cat[1..][i].languages| && LocaleCode(cat[1..][i].languages[j]) == c;
        assert cat[i + 1] == cat[1..][i];
      }
      if Declares(cat, c) {
        var i, j :| 0 <= i < |cat| && 0 <= j < |cat[i].languages| && LocaleCode(cat[i].languages[j]) == c;
        if i > 0 {
          assert cat[1..][i - 1] == cat[i];
        }
      }
    }
  }

  /** Some entry of the entity, for one of its languages with locale code `c`, has key and value `p`. */
  ghost predicate EntityProvides(e: Entity, c: string, p: Pair)
  {
    exists k, l ::
      && 0 <= k < |e.entries| && 0 <= l < |e.entries[k].languages|
      && LocaleCode(e.entries[k].languages[l]) == c
      && p == Pair(e.entries[k].key, ValueOf(e.entries[k], e.entries[k].languages[l]))
  }

  lemma ProvidesCons(cat: ResourceCatalog, c: string, p: Pair)
    requires cat != []
    ensures Provides(cat, c, p) <==> EntityProvides(cat[0], c, p) || Provides(cat[1..], c, p)
  {
    if Provides(cat[1..], c, p) {
      var i, k, l :|
        && 0 <= i < |cat[1..]| && 0 <= k < |cat[1..][i].entries| && 0 <= l < |cat[1..][i].entries[k].languages|
        && LocaleCode(cat[1..][i].entries[k].languages[l]) == c
        && p == Pair(cat[1..][i].entries[k].key, ValueOf(cat[1..][i].entries[k], cat[1..][i].entries[k].languages[l]));
      assert cat[i + 1] == cat[1..][i];
    }
    if Provides(cat, c, p) {
      var i, k, l :|
        && 0 <= i < |cat| && 0 <= k < |cat[i].entries| && 0 <= l < |cat[i].entries[k].languages|
        && LocaleCode(cat[i].entries[k].languages[l]) == c
        && p == Pair(cat[i].entries[k].key, ValueOf(cat[i].entries[k], cat[i].entries[k].languages[l]));
      if i > 0 {
        assert cat[1..][i - 1] == cat[i];
      }
    }
  }

  lemma EntityStepsPuts(e: Entity, c: string, p: Pair)
    ensures Put(c, p.key, p.value) in EntitySteps(e) <==> EntityProvides(e, c, p)
  {
    var s := Put(c, p.key, p.value);
    EntriesStepsHas(e.entries, s);
    assert s !in DeclareSteps(e.languages);
    if s in EntriesSteps(e.entries) {
      var k, l :| 0 <= k < |e.entries| && 0 <= l < |e.entries[k].languages| && s == PutStep(e.entries[k], e.entries[k].languages[l]);
      assert LocaleCode(e.entries[k].languages[l]) == c;
    }
    if EntityProvides(e, c, p) {
      var k, l :|
        && 0 <= k < |e.entries| && 0 <= l < |e.entries[k].languages|
        && LocaleCode(e.entries[k].languages[l]) == c
        && p == Pair(e.entries[k].key, ValueOf(e.entries[k], e.entries[k].languages[l]));
      assert s == PutStep(e.entries[k], e.entries[k].languages[l]);
    }
  }

  /** The pass adds to the bucket of `c` exactly the values the entries provide for it. */
  lemma {:induction false} CatalogStepsPuts(cat: ResourceCatalog, c: string, p: Pair)
    ensures Put(c, p.key, p.value) in CatalogSteps(cat) <==> Provides(cat, c, p)
  {
    if cat != [] {
      EntityStepsPuts(cat[0], c, p);
      CatalogStepsPuts(cat[1..], c, p);
      ProvidesCons(cat, c, p);
    }
  }

  // ---------------------------------------------------------------------
  // The result of a successful pass

  /** Every locale code any entity declares has a bucket, possibly empty, and no other code has one. */
  lemma ExtractCodes(cat: ResourceCatalog)
    requires Extract(cat).Ok?
    ensures forall c :: c in Codes(Extract(cat).value) <==> Declares(cat, c)
  {
    RunCodes([], CatalogSteps(cat));
    forall c ensures Declare(c) in CatalogSteps(cat) <==> Declares(cat, c) {
      CatalogStepsDeclares(cat, c);
    }
  }

  /** The bucket of `c` holds the values added to `c`, in the order the pass added them. */
  lemma ExtractBucket(cat: ResourceCatalog, c: string)
    requires Extract(cat).Ok?
    ensures Lookup(Extract(cat).value, c) == PutsTo(CatalogSteps(cat), c)
  {
    RunLookup([], CatalogSteps(cat), c);
  }

  /**
   * The bucket of `c` holds, for every entry and every language of it whose
   * code is `c`, the entry's key with its value ("" when it has none), and nothing else.
   */
  lemma ExtractPairs(cat: ResourceCatalog, c: string)
    requires Extract(cat).Ok?
    ensures forall p :: p in Lookup(Extract(cat).value, c) <==> Provides(cat, c, p)
  {
    ExtractBucket(cat, c);
    forall p: Pair ensures Put(c, p.key, p.value) in CatalogSteps(cat) <==> Provides(cat, c, p) {
      CatalogStepsPuts(cat, c, p);
    }
  }

  /** Locale codes are distinct, and so are the keys within each bucket. */
  lemma ExtractWellFormed(cat: ResourceCatalog)
    requires Extract(cat).Ok?
    ensures WellFormed(Extract(cat).value)
  {
    RunWellFormed([], CatalogSteps(cat));
  }

  /** The pass goes through exactly when each of its operations is accepted in turn. */
  lemma ExtractOkIff(cat: ResourceCatalog)
    ensures Extract(cat).Ok? <==> Admissible([], CatalogSteps(cat))
  {
    RunOkIff([], CatalogSteps(cat));
  }

  // ---------------------------------------------------------------------
  // Where an entry's Add stands in the pass, and the two aborts

  lemma ConcatAssoc<T>(x: seq<T>, y: seq<T>, z: seq<T>)
    ensures x + (y + z) == x + y + z
  {
  }

  lemma {:induction false} CatalogStepsAppend(a: ResourceCatalog, b: ResourceCatalog)
    ensures CatalogSteps(a + b) == CatalogSteps(a) + CatalogSteps(b)
  {
    if a == [] {
      assert a + b == b;
    } else {
      var ab := a + b;
      assert ab[0] == a[0] && ab[1..] == a[1..] + b;
      CatalogStepsAppend(a[1..], b);
      ConcatAssoc(EntitySteps(a[0]), CatalogSteps(a[1..]), CatalogSteps(b));
    }
  }

  lemma {:induction false} EntriesStepsAppend(a: seq<Entry>, b: seq<Entry>)
    ensures EntriesSteps(a + b) == EntriesSteps(a) + EntriesSteps(b)
  {
    if a == [] {
      assert a + b == b;
    } else {
      var ab := a + b;
      assert ab[0] == a[0] && ab[1..] == a[1..] + b;
      EntriesStepsAppend(a[1..], b);
      ConcatAssoc(PutSteps(a[0], a[0].languages), EntriesSteps(a[1..]), EntriesSteps(b));
    }
  }

  lemma CatalogPrefixes(cat: ResourceCatalog, i: nat, j: nat)
    requires i <= j <= |cat|
    ensures CatalogSteps(cat[..j]) == CatalogSteps(cat[..i]) + CatalogSteps(cat[i..j])
  {
    assert cat[..j] == cat[..i] + cat[i..j];
    CatalogStepsAppend(cat[..i], cat[i..j]);
  }

  lemma EntriesPrefixes(es: seq<Entry>, i: nat, j: nat)
    requires i <= j <= |es|
    ensures EntriesSteps(es[..j]) == EntriesSteps(es[..i]) + EntriesSteps(es[i..j])
  {
    assert es[..j] == es[..i] + es[i..j];
    EntriesStepsAppend(es[..i], es[i..j]);
  }

  predicate ValidIndex(cat: ResourceCatalog, i: int, k: int, l: int)
  {
    0 <= i < |cat| && 0 <= k < |cat[i].entries| && 0 <= l < |cat[i].entries[k].languages|
  }

  /** The position, in the pass, of the Add of entry k of entity i for its language l. */
  ghost function Pos(cat: ResourceCatalog, i: nat, k: nat, l: nat): nat
    requires ValidIndex(cat, i, k, l)
  {
    |CatalogSteps(cat[..i])| + |cat[i].languages| + |EntriesSteps(cat[i].entries[..k])| + l
  }

  lemma IndexInMiddle(x: seq<Step>, y: seq<Step>, z: seq<Step>, j: nat)
    requires j < |y|
    ensures |x| + j < |x + y + z| && (x + y + z)[|x| + j] == y[j]
  {
  }

  lemma EntriesStepsSingle(x: Entry)
    ensures EntriesSteps([x]) == PutSteps(x, x.languages)
  {
    assert [x][1..] == [];
  }

  lemma CatalogStepsSingle(e: Entity)
    ensures CatalogSteps([e]) == EntitySteps(e)
  {
    assert [e][1..] == [];
  }

  /** An entity's operations around the Adds of its entry k. */
  lemma EntityStepsAt(e: Entity, k: nat)
    requires k < |e.entries|
    ensures EntriesSteps(e.entries[..k + 1]) == EntriesSteps(e.entries[..k]) + PutSteps(e.entries[k], e.entries[k].languages)
    ensures EntriesSteps(e.entries) == EntriesSteps(e.entries[..k + 1]) + EntriesSteps(e.entries[k + 1..])
  {
    var es := e.entries;
    EntriesPrefixes(es, k, k + 1);
    assert es[k..k + 1] == [es[k]];
    EntriesStepsSingle(es[k]);
    EntriesPrefixes(es, k + 1, |es|);
    assert es[..|es|] == es;
    assert es[k + 1..|es|] == es[k + 1..];
  }

  lemma CatalogStepsThrough(cat: ResourceCatalog, i: nat)
    requires i < |cat|
    ensures CatalogSteps(cat[..i + 1]) == CatalogSteps(cat[..i]) + EntitySteps(cat[i])
  {
    assert cat[..i + 1] == cat[..i] + [cat[i]];
    CatalogStepsAppend(cat[..i], [cat[i]]);
    CatalogStepsSingle(cat[i]);
  }

  lemma CatalogStepsSplit(cat: ResourceCatalog, i: nat)
    requires i <= |cat|
    ensures CatalogSteps(cat) == CatalogSteps(cat[..i]) + CatalogSteps(cat[i..])
  {
    CatalogPrefixes(cat, i, |cat|);
    assert cat[..|cat|] == cat;
    assert cat[i..|cat|] == cat[i..];
  }

  /** Where an element of the middle piece `y` lands in a concatenation of six pieces. */
  lemma Locate(full: seq<Step>, pre: seq<Step>, a: seq<Step>, b: seq<Step>, x: seq<Step>, y: seq<Step>, z: seq<Step>, r: seq<Step>, l: nat)
    requires pre == a + (b + (x + y + z)) && full == pre + r
    requires l < |y|
    ensures |a| + |b| + |x| + l < |pre| <= |full|
    ensures full[..|pre|] == pre
    ensures full[|a| + |b| + |x| + l] == y[l]
  {
    assert full == (a + b + x) + y + (z + r);
    IndexInMiddle(a + b + x, y, z + r, l);
  }

  lemma StepAt(cat: ResourceCatalog, i: nat, k: nat, l: nat)
    requires ValidIndex(cat, i, k, l)
    ensures |CatalogSteps(cat[..i + 1])| <= |CatalogSteps(cat)|
    ensures CatalogSteps(cat[..i + 1]) == CatalogSteps(cat)[..|CatalogSteps(cat[..i + 1])|]
    ensures |CatalogSteps(cat[..i])| + |cat[i].languages| + |EntriesSteps(cat[i].entries[..k])| <= Pos(cat, i, k, l)
    ensures Pos(cat, i, k, l) < |CatalogSteps(cat[..i])| + |cat[i].languages| + |EntriesSteps(cat[i].entries[..k + 1])|
    ensures Pos(cat, i, k, l) < |CatalogSteps(cat[..i + 1])|
    ensures CatalogSteps(cat)[Pos(cat, i, k, l)] == PutStep(cat[i].entries[k], cat[i].entries[k].languages[l])
  {
    var e := cat[i];
    var es := e.entries;
    CatalogStepsThrough(cat, i);
    CatalogStepsSplit(cat, i + 1);
    EntityStepsAt(e, k);
    var a := CatalogSteps(cat[..i]);
    var b := DeclareSteps(e.languages);
    var x := EntriesSteps(es[..k]);
    var y := PutSteps(es[k], es[k].languages);
    var z := EntriesSteps(es[k + 1..]);
    var r := CatalogSteps(cat[i + 1..]);
    var pre := CatalogSteps(cat[..i + 1]);
    assert pre == a + (b + (x + y + z));
    assert CatalogSteps(cat) == pre + r;
    Locate(CatalogSteps(cat), pre, a, b, x, y, z, r, l);
    assert Pos(cat, i, k, l) == |a| + |b| + |x| + l;
    assert y[l] == PutStep(es[k], es[k].languages[l]);
  }

  /** The Adds of entity i's entry k occupy a stretch of the pass that ends within entity i. */
  lemma PosBounds(cat: ResourceCatalog, i: nat, k: nat, l: nat)
    requires ValidIndex(cat, i, k, l)
    ensures |CatalogSteps(cat[..i])| + |cat[i].languages| + |EntriesSteps(cat[i].entries[..k])| <= Pos(cat, i, k, l)
    ensures Pos(cat, i, k, l) < |CatalogSteps(cat[..i])| + |cat[i].languages| + |EntriesSteps(cat[i].entries[..k + 1])|
    ensures Pos(cat, i, k, l) < |CatalogSteps(cat[..i + 1])|
  {
    StepAt(cat, i, k, l);
  }

  lemma CatalogPrefixLength(cat: ResourceCatalog, i: nat, j: nat)
    requires i <= j <= |cat|
    ensures |CatalogSteps(cat[..i])| <= |CatalogSteps(cat[..j])|
  {
    CatalogPrefixes(cat, i, j);
  }

  lemma EntriesPrefixLength(es: seq<Entry>, i: nat, j: nat)
    requires i <= j <= |es|
    ensures |EntriesSteps(es[..i])| <= |EntriesSteps(es[..j])|
  {
    EntriesPrefixes(es, i, j);
  }

  /** The Adds of an earlier entity come before those of a later one. */
  lemma PosAcrossEntities(cat: ResourceCatalog, i1: nat, k1: nat, l1: nat, i2: nat, k2: nat, l2: nat)
    requires ValidIndex(cat, i1, k1, l1) && ValidIndex(cat, i2, k2, l2) && i1 < i2
    ensures Pos(cat, i1, k1, l1) < Pos(cat, i2, k2, l2)
  {
    PosBounds(cat, i1, k1, l1);
    PosBounds(cat, i2, k2, l2);
    CatalogPrefixLength(cat, i1 + 1, i2);
  }

  /** Within an entity, the Adds of an earlier entry come before those of a later one. */
  lemma PosAcrossEntries(cat: ResourceCatalog, i: nat, k1: nat, l1: nat, k2: nat, l2: nat)
    requires ValidIndex(cat, i, k1, l1) && ValidIndex(cat, i, k2, l2) && k1 < k2
    ensures Pos(cat, i, k1, l1) < Pos(cat, i, k2, l2)
  {
    PosBounds(cat, i, k1, l1);
    PosBounds(cat, i, k2, l2);
    EntriesPrefixLength(cat[i].entries, k1 + 1, k2);
  }

  lemma PosInjective(cat: ResourceCatalog, i1: nat, k1: nat, l1: nat, i2: nat, k2: nat, l2: nat)
    requires ValidIndex(cat, i1, k1, l1) && ValidIndex(cat, i2, k2, l2)
    requires (i1, k1, l1) != (i2, k2, l2)
    ensures Pos(cat, i1, k1, l1) != Pos(cat, i2, k2, l2)
  {
    if i1 < i2 {
      PosAcrossEntities(cat, i1, k1, l1, i2, k2, l2);
    } else if i2 < i1 {
      PosAcrossEntities(cat, i2, k2, l2, i1, k1, l1);
    } else if k1 < k2 {
      PosAcrossEntries(cat, i1, k1, l1, k2, l2);
    } else if k2 < k1 {
      PosAcrossEntries(cat, i1, k2, l2, k1, l1);
    }
  }

  /**
   * An entry whose language has a locale code that no entity processed so far
   * (entities 0 to i, the entry's own included) declares makes the indexer
   * throw, and the pass aborts.
   */
  lemma UndeclaredLocaleAborts(cat: ResourceCatalog, i: nat, k: nat, l: nat)
    requires ValidIndex(cat, i, k, l)
    requires !Declares(cat[..i + 1], LocaleCode(cat[i].entries[k].languages[l]))
    ensures Extract(cat).Err?
  {
    var c := LocaleCode(cat[i].entries[k].languages[l]);
    var steps := CatalogSteps(cat);
    var q := Pos(cat, i, k, l);
    StepAt(cat, i, k, l);
    CatalogStepsDeclares(cat[..i + 1], c);
    RunFailsOnUndeclared([], steps, q);
  }

  /**
   * Two Adds of the same key to the same locale, from two entries (of the same
   * or different entities) or from two languages of one entry with the same
   * code, make Dictionary.Add throw, and the pass aborts: nothing is overwritten.
   */
  lemma DuplicateKeyAborts(cat: ResourceCatalog, i1: nat, k1: nat, l1: nat, i2: nat, k2: nat, l2: nat)
    requires ValidIndex(cat, i1, k1, l1) && ValidIndex(cat, i2, k2, l2)
    requires (i1, k1, l1) != (i2, k2, l2)
    requires cat[i1].entries[k1].key == cat[i2].entries[k2].key
    requires LocaleCode(cat[i1].entries[k1].languages[l1]) == LocaleCode(cat[i2].entries[k2].languages[l2])
    ensures Extract(cat).Err?
  {
    var p1, p2 := Pos(cat, i1, k1, l1), Pos(cat, i2, k2, l2);
    PosInjective(cat, i1, k1, l1, i2, k2, l2);
    StepAt(cat, i1, k1, l1);
    StepAt(cat, i2, k2, l2);
    if p1 < p2 {
      RunFailsOnRepeat([], CatalogSteps(cat), p1, p2);
    } else {
      RunFailsOnRepeat([], CatalogSteps(cat), p2, p1);
    }
  }

  // ---------------------------------------------------------------------
  // Exactly two causes of failure

  /** Entry k of entity i uses, for its language l, a locale that entities 0 to i do not declare. */
  ghost predicate UndeclaredUse(cat: ResourceCatalog, i: nat, k: nat, l: nat)
  {
    ValidIndex(cat, i, k, l) && !Declares(cat[..i + 1], LocaleCode(cat[i].entries[k].languages[l]))
  }

  /** Two different (entity, entry, language) positions add the same key to the same locale. */
  ghost predicate KeyClash(cat: ResourceCatalog, i1: nat, k1: nat, l1: nat, i2: nat, k2: nat, l2: nat)
  {
    && ValidIndex(cat, i1, k1, l1) && ValidIndex(cat, i2, k2, l2)
    && (i1, k1, l1) != (i2, k2, l2)
    && cat[i1].entries[k1].key == cat[i2].entries[k2].key
    && LocaleCode(cat[i1].entries[k1].languages[l1]) == LocaleCode(cat[i2].entries[k2].languages[l2])
  }

  /** Every position of the Adds of a list of entries is that of some entry's language. */
  lemma {:induction false} EntriesPutIndex(es: seq<Entry>, q: nat) returns (k: nat, l: nat)
    requires q < |EntriesSteps(es)|
    ensures k < |es| && l < |es[k].languages|
    ensures |EntriesSteps(es[..k])| + l == q
    decreases |es|
  {
    assert es != [];
    var n := |es[0].languages|;
    assert EntriesSteps(es) == PutSteps(es[0], es[0].languages) + EntriesSteps(es[1..]);
    if q < n {
      k, l := 0, q;
      assert es[..0] == [];
    } else {
      var k', l' := EntriesPutIndex(es[1..], q - n);
      k, l := k' + 1, l';
      assert es[..k] == [es[0]] + es[1..][..k'];
      EntriesStepsAppend([es[0]], es[1..][..k']);
      EntriesStepsSingle(es[0]);
    }
  }

  /** Positions of the entities after the first are those of the rest of the catalog, shifted by the first entity's steps. */
  lemma PosShift(cat: ResourceCatalog, i: nat, k: nat, l: nat)
    requires cat != [] && ValidIndex(cat[1..], i, k, l)
    ensures ValidIndex(cat, i + 1, k, l) && Pos(cat, i + 1, k, l) == |EntitySteps(cat[0])| + Pos(cat[1..], i, k, l)
  {
    assert cat[..i + 1] == [cat[0]] + cat[1..][..i];
    CatalogStepsAppend([cat[0]], cat[1..][..i]);
    CatalogStepsSingle(cat[0]);
    assert cat[i + 1] == cat[1..][i];
  }

  /** Every Add of the pass is the one of some (entity, entry, language) position. */
  lemma {:induction false} CatalogPutIndex(cat: ResourceCatalog, q: nat) returns (i: nat, k: nat, l: nat)
    requires q < |CatalogSteps(cat)| && CatalogSteps(cat)[q].Put?
    ensures ValidIndex(cat, i, k, l) && Pos(cat, i, k, l) == q
    decreases |cat|
  {
    assert cat != [];
    var e := cat[0];
    var a, b, r := DeclareSteps(e.languages), EntriesSteps(e.entries), CatalogSteps(cat[1..]);
    assert CatalogSteps(cat) == a + b + r;
    if q < |a| {
      assert false;
    } else if q < |a| + |b| {
      var k', l' := EntriesPutIndex(e.entries, q - |a|);
      i, k, l := 0, k', l';
      assert cat[..0] == [];
    } else {
      var q' := q - |a| - |b|;
      assert r[q'] == CatalogSteps(cat)[q];
      var i', k', l' := CatalogPutIndex(cat[1..], q');
      PosShift(cat, i', k', l');
      i, k, l := i' + 1, k', l';
    }
  }

  /** A locale that no Declare before an Add registers is declared by none of the entities so far. */
  lemma UndeclaredAt(cat: ResourceCatalog, i: nat, k: nat, l: nat)
    requires ValidIndex(cat, i, k, l) && Pos(cat, i, k, l) <= |CatalogSteps(cat)|
    requires Declare(LocaleCode(cat[i].entries[k].languages[l])) !in CatalogSteps(cat)[..Pos(cat, i, k, l)]
    ensures UndeclaredUse(cat, i, k, l)
  {
    var c := LocaleCode(cat[i].entries[k].languages[l]);
    var steps := CatalogSteps(cat);
    var q := Pos(cat, i, k, l);
    StepAt(cat, i, k, l);
    CatalogStepsThrough(cat, i);
    var pre := CatalogSteps(cat[..i]) + DeclareSteps(cat[i].languages);
    var ents := EntriesSteps(cat[i].entries);
    assert CatalogSteps(cat[..i + 1]) == pre + ents;
    forall j | 0 <= j < |pre| ensures pre[j] != Declare(c) {
      assert pre[j] == (pre + ents)[j] == steps[j] == steps[..q][j];
    }
    EntriesStepsHas(cat[i].entries, Declare(c));
    assert Declare(c) !in pre + ents;
    CatalogStepsDeclares(cat[..i + 1], c);
  }

  /** A key already in a locale's bucket before the q-th step was added there by an earlier entry language. */
  lemma EarlierPut(cat: ResourceCatalog, q: nat, c: string, key: string) returns (i: nat, k: nat, l: nat)
    requires q <= |CatalogSteps(cat)| && key in KeysOf(PutsTo(CatalogSteps(cat)[..q], c))
    ensures ValidIndex(cat, i, k, l) && Pos(cat, i, k, l) < q
    ensures cat[i].entries[k].key == key && LocaleCode(cat[i].entries[k].languages[l]) == c
  {
    var steps := CatalogSteps(cat);
    var done := steps[..q];
    var ps := PutsTo(done, c);
    var j :| 0 <= j < |ps| && KeysOf(ps)[j] == key;
    var pair := ps[j];
    assert pair in ps;
    var p :| 0 <= p < |done| && done[p] == Put(c, pair.key, pair.value);
    assert steps[p] == done[p];
    i, k, l := CatalogPutIndex(cat, p);
    StepAt(cat, i, k, l);
  }

  /**
   * When the pass throws, the cause is in the catalog: the indexer's exception
   * comes from an entry language whose locale no entity so far declares, and
   * Dictionary.Add's from two positions adding the same key to the same locale.
   */
  lemma ExtractErrCause(cat: ResourceCatalog)
    ensures Extract(cat).Err? && Extract(cat).error.UnknownLocale? ==>
      exists i: nat, k: nat, l: nat :: UndeclaredUse(cat, i, k, l)
    ensures Extract(cat).Err? && Extract(cat).error.DuplicateKey? ==>
      exists i1: nat, k1: nat, l1: nat, i2: nat, k2: nat, l2: nat :: KeyClash(cat, i1, k1, l1, i2, k2, l2)
  {
    if Extract(cat).Err? {
      var steps := CatalogSteps(cat);
      var q := FirstFailure([], steps);
      var i, k, l := CatalogPutIndex(cat, q);
      StepAt(cat, i, k, l);
      var e := cat[i].entries[k];
      var c := LocaleCode(e.languages[l]);
      assert steps[q] == Put(c, e.key, ValueOf(e, e.languages[l]));
      assert Codes([]) == [];
      assert Lookup([], c) + PutsTo(steps[..q], c) == PutsTo(steps[..q], c);
      if Declare(c) in steps[..q] {
        var i2, k2, l2 := EarlierPut(cat, q, c, e.key);
        assert KeyClash(cat, i2, k2, l2, i, k, l);
      } else {
        UndeclaredAt(cat, i, k, l);
      }
    }
  }

  /**
   * The extraction throws exactly when an entry uses a locale no entity so far
   * declares, or two positions add the same key to the same locale.
   */
  lemma ExtractErrIff(cat: ResourceCatalog)
    ensures Extract(cat).Err? <==>
      || (exists i: nat, k: nat, l: nat :: UndeclaredUse(cat, i, k, l))
      || (exists i1: nat, k1: nat, l1: nat, i2: nat, k2: nat, l2: nat :: KeyClash(cat, i1, k1, l1, i2, k2, l2))
  {
    ExtractErrCause(cat);
    if exists i: nat, k: nat, l: nat :: UndeclaredUse(cat, i, k, l) {
      var i: nat, k: nat, l: nat :| UndeclaredUse(cat, i, k, l);
      UndeclaredLocaleAborts(cat, i, k, l);
    }
    if exists i1: nat, k1: nat, l1: nat, i2: nat, k2: nat, l2: nat :: KeyClash(cat, i1, k1, l1, i2, k2, l2) {
      var i1: nat, k1: nat, l1: nat, i2: nat, k2: nat, l2: nat :| KeyClash(cat, i1, k1, l1, i2, k2, l2);
      DuplicateKeyAborts(cat, i1, k1, l1, i2, k2, l2);
    }
  }
}
