/**
 * SerializeForAndroid and SerializeForiOS: render one locale bucket, leaving
 * out every pair whose value is empty or white space, and attempt to write it
 * to a file. A failure of the write is caught and logged, so a serializer
 * never throws; the model returns the attempt with whether it was written.
 */
module Serializers {
  import opened Wrappers
  import opened Buckets

  /** Environment.NewLine, fixed to the Windows value. */
  const NewLine: string := "\r\n"

  /**
   * char.IsWhiteSpace for characters of the Basic Multilingual Plane: the
   * Unicode categories Zs, Zl and Zp, U+0009 to U+000D, and U+0085.
   */
  predicate IsWhiteSpace(c: char)
  {
    || c == ' ' || ('\t' <= c <= '\r') || c == '\U{85}' || c == '\U{A0}' || c == '\U{1680}'
    || ('\U{2000}' <= c <= '\U{200A}') || c == '\U{2028}' || c == '\U{2029}'
    || c == '\U{202F}' || c == '\U{205F}' || c == '\U{3000}'
  }

  /** string.IsNullOrWhiteSpace of a (non-null) value: empty, or white space only. */
  predicate IsNullOrWhiteSpace(s: string)
  {
    forall i :: 0 <= i < |s| ==> IsWhiteSpace(s[i])
  }

  /** The common separators are white space; digits, letters, the zero-width space and the BOM are not. */
  lemma WhiteSpaceChars(c: char)
    ensures c in " \t\n\U{B}\U{C}\r\U{85}\U{A0}\U{2028}\U{2029}\U{3000}" ==> IsWhiteSpace(c)
    ensures IsWhiteSpace(c) ==> !('0' <= c <= '9') && !('A' <= c <= 'Z') && !('a' <= c <= 'z')
    ensures IsWhiteSpace(c) ==> c != '\U{200B}' && c != '\U{FEFF}'
  {
  }

  /** A value is blank exactly when it is empty or every character of it is white space. */
  lemma BlankValues(s: string)
    ensures s == [] ==> IsNullOrWhiteSpace(s)
    ensures IsNullOrWhiteSpace(s) <==> forall c :: c in s ==> IsWhiteSpace(c)
  {
  }

  /** The pairs a serializer writes out: those whose value is not blank, in bucket order. */
  function Kept(pairs: seq<Pair>): (r: seq<Pair>)
    ensures |r| <= |pairs|
  {
    if pairs == [] then []
    else (if IsNullOrWhiteSpace(pairs[0].value) then [] else [pairs[0]]) + Kept(pairs[1..])
  }

  /** A pair is kept exactly when it is in the bucket and its value is not blank. */
  lemma {:induction false} KeptMembers(pairs: seq<Pair>)
    ensures forall p :: p in Kept(pairs) <==> p in pairs && !IsNullOrWhiteSpace(p.value)
  {
    if pairs != [] {
      KeptMembers(pairs[1..]);
      assert pairs == [pairs[0]] + pairs[1..];
    }
  }

  lemma {:induction false} KeptAppend(a: seq<Pair>, b: seq<Pair>)
    ensures Kept(a + b) == Kept(a) + Kept(b)
  {
    if a == [] {
      assert a + b == b;
    } else {
      assert (a + b)[0] == a[0];
      assert (a + b)[1..] == a[1..] + b;
      KeptAppend(a[1..], b);
    }
  }

  /** Filtering one more pair: it is kept at the end, or dropped when its value is blank. */
  lemma KeptSnoc(a: seq<Pair>, x: Pair)
    ensures Kept(a + [x]) == Kept(a) + if IsNullOrWhiteSpace(x.value) then [] else [x]
  {
    KeptAppend(a, [x]);
    assert [x][1..] == [];
  }

  lemma KeysOfHas(ps: seq<Pair>, k: string)
    ensures k in KeysOf(ps) <==> exists p :: p in ps && p.key == k
  {
    if k in KeysOf(ps) {
      var j :| 0 <= j < |ps| && KeysOf(ps)[j] == k;
      assert ps[j] in ps;
    }
    if exists p :: p in ps && p.key == k {
      var p :| p in ps && p.key == k;
      var j :| 0 <= j < |ps| && ps[j] == p;
      assert KeysOf(ps)[j] == k;
    }
  }

  lemma DistinctCons(k: string, ks: seq<string>)
    ensures Distinct([k] + ks) <==> k !in ks && Distinct(ks)
  {
    var s := [k] + ks;
    if k in ks {
      var j :| 0 <= j < |ks| && ks[j] == k;
      assert s[0] == s[j + 1];
    }
    if Distinct(s) {
      forall i, j | 0 <= i < j < |ks|
        ensures ks[i] != ks[j]
      {
        assert s[i + 1] == ks[i] && s[j + 1] == ks[j];
      }
    }
  }

  lemma KeysOfCons(pairs: seq<Pair>)
    requires pairs != []
    ensures KeysOf(pairs) == [pairs[0].key] + KeysOf(pairs[1..])
  {
  }

  /** A key of a kept pair is a key of the bucket. */
  lemma KeptKeysWithin(pairs: seq<Pair>, k: string)
    ensures k in KeysOf(Kept(pairs)) ==> k in KeysOf(pairs)
  {
    KeptMembers(pairs);
    KeysOfHas(Kept(pairs), k);
    KeysOfHas(pairs, k);
  }

  /** Filtering keeps keys distinct, so every kept pair is written exactly once. */
  lemma {:induction false} KeptKeysDistinct(pairs: seq<Pair>)
    requires Distinct(KeysOf(pairs))
    ensures Distinct(KeysOf(Kept(pairs)))
  {
    if pairs != [] {
      var rest := pairs[1..];
      var k := pairs[0].key;
      KeysOfCons(pairs);
      DistinctCons(k, KeysOf(rest));
      KeptKeysDistinct(rest);
      if IsNullOrWhiteSpace(pairs[0].value) {
        assert Kept(pairs) == Kept(rest);
      } else {
        KeptKeysWithin(rest, k);
        assert Kept(pairs) == [pairs[0]] + Kept(rest);
        KeysOfCons(Kept(pairs));
        assert Kept(pairs)[1..] == Kept(rest);
        DistinctCons(k, KeysOf(Kept(rest)));
      }
    }
  }

  // ---------------------------------------------------------------------
  // Android

  /** One `string` element of the Android document: attribute `name` and text content. */
  datatype KeyValue = KeyValue(key: string, value: string)

  /** The document model that XmlSerializer writes: root `resources`, one `string` child per KeyValue. */
  class AndroidXmlResourcesModel {
    var keyValues: seq<KeyValue>

    constructor ()
      ensures keyValues == []
    {
      keyValues := [];
    }
  }

  /** An XML element `<tag name="...">text</tag>`. */
  datatype XmlElement = XmlElement(tag: string, name: string, text: string)

  /** An XML document: its root element's tag and the root's children. */
  datatype XmlDocument = XmlDocument(root: string, children: seq<XmlElement>)

  const RootTag: string := "resources"
  const StringTag: string := "string"

  /** What the attribute mapping of AndroidXmlResourcesModel makes of its list. */
  function ToXml(kvs: seq<KeyValue>): XmlDocument
  {
    XmlDocument(RootTag, seq(|kvs|, i requires 0 <= i < |kvs| => XmlElement(StringTag, kvs[i].key, kvs[i].value)))
  }

  function AsKeyValues(ps: seq<Pair>): seq<KeyValue>
  {
    seq(|ps|, i requires 0 <= i < |ps| => KeyValue(ps[i].key, ps[i].value))
  }

  /** The document SerializeForAndroid writes for a bucket. */
  function AndroidDocument(pairs: seq<Pair>): XmlDocument
  {
    ToXml(AsKeyValues(Kept(pairs)))
  }

  /** The document has a `string` element for each kept pair, in order: name = key, text = raw value. */
  lemma AndroidDocumentElements(pairs: seq<Pair>)
    ensures AndroidDocument(pairs).root == RootTag && |AndroidDocument(pairs).children| == |Kept(pairs)|
    ensures forall i :: 0 <= i < |Kept(pairs)| ==>
      AndroidDocument(pairs).children[i] == XmlElement(StringTag, Kept(pairs)[i].key, Kept(pairs)[i].value)
  {
  }

  /** Reads a strings resource back into its name/text pairs. */
  function ParseAndroid(doc: XmlDocument): Option<seq<Pair>>
  {
    if doc.root != RootTag then None
    else if exists i :: 0 <= i < |doc.children| && doc.children[i].tag != StringTag then None
    else Some(seq(|doc.children|, i requires 0 <= i < |doc.children| => Pair(doc.children[i].name, doc.children[i].text)))
  }

  /** Reading the document back gives exactly the bucket's non-blank pairs, in bucket order. */
  lemma AndroidRoundTrip(pairs: seq<Pair>)
    ensures ParseAndroid(AndroidDocument(pairs)) == Some(Kept(pairs))
  {
    var doc := AndroidDocument(pairs);
    var back := seq(|doc.children|, i requires 0 <= i < |doc.children| => Pair(doc.children[i].name, doc.children[i].text));
    assert back == Kept(pairs);
  }

  /**
   * The document is a `resources` root whose children are `string` elements,
   * one for each pair with a non-blank value (name = key, text = raw value)
   * and none for any other pair; with distinct keys, the names are distinct.
   */
  lemma AndroidDocumentShape(pairs: seq<Pair>)
    ensures AndroidDocument(pairs).root == RootTag
    ensures forall el :: el in AndroidDocument(pairs).children <==>
      el.tag == StringTag && Pair(el.name, el.text) in pairs && !IsNullOrWhiteSpace(el.text)
    ensures Distinct(KeysOf(pairs)) ==>
      forall i, j :: 0 <= i < j < |AndroidDocument(pairs).children| ==>
        AndroidDocument(pairs).children[i].name != AndroidDocument(pairs).children[j].name
  {
    KeptMembers(pairs);
    var kept := Kept(pairs);
    var children := AndroidDocument(pairs).children;
    forall el ensures el in children <==> el.tag == StringTag && Pair(el.name, el.text) in pairs && !IsNullOrWhiteSpace(el.text) {
      if el in children {
        var i :| 0 <= i < |children| && children[i] == el;
        assert kept[i] in kept;
      }
      if el.tag == StringTag && Pair(el.name, el.text) in pairs && !IsNullOrWhiteSpace(el.text) {
        var i :| 0 <= i < |kept| && kept[i] == Pair(el.name, el.text);
        assert children[i] == el;
      }
    }
    if Distinct(KeysOf(pairs)) {
      KeptKeysDistinct(pairs);
      forall i, j | 0 <= i < j < |children| ensures children[i].name != children[j].name {
        assert KeysOf(kept)[i] == children[i].name;
        assert KeysOf(kept)[j] == children[j].name;
      }
    }
  }

  // ---------------------------------------------------------------------
  // Writing

  /** What a serializer writes: the Android document, or the iOS text. */
  datatype Content = Xml(doc: XmlDocument) | Text(text: string)

  /** One write attempt: the file, what was to be written, and whether the write went through. */
  datatype Attempt = Attempt(path: string, content: Content, written: bool)

  /**
   * SerializeForAndroid: collect the non-blank pairs into the document model,
   * then write the serialized document to `path`; a write that throws (a path
   * in `failingFiles`) is caught and logged, and the attempt is not written.
   */
  method SerializeForAndroid(dict: seq<Pair>, path: string, failingFiles: set<string>) returns (a: Attempt)
    ensures a == Attempt(path, Xml(AndroidDocument(dict)), path !in failingFiles)
  {
    var data := new AndroidXmlResourcesModel();
    var i := 0;
    while i < |dict|
      invariant 0 <= i <= |dict|
      invariant data.keyValues == AsKeyValues(Kept(dict[..i]))
    {
      var kv := dict[i];
      assert dict[..i + 1] == dict[..i] + [kv];
      KeptSnoc(dict[..i], kv);
      if !IsNullOrWhiteSpace(kv.value) {
        data.keyValues := data.keyValues + [KeyValue(kv.key, kv.value)];
      }
      i := i + 1;
    }
    assert dict[..i] == dict;
    a := Attempt(path, Xml(ToXml(data.keyValues)), path !in failingFiles);
  }

  // ---------------------------------------------------------------------
  // iOS

  /** What stands between a key and its value: quote, space, equals sign, space, quote. */
  const Separator: string := "\" = \""

  /** The line written for one pair: `"KEY" = "VALUE";` and a line break, nothing escaped. */
  function Line(p: Pair): string
  {
    "\"" + p.key + Separator + p.value + "\";" + NewLine
  }

  /** A line is the quoted key, the separator, the raw value, a closing quote, a semicolon and a line break. */
  lemma LineShape(p: Pair)
    ensures var l := Line(p);
      && |l| == |p.key| + |p.value| + 10
      && l[..1] == "\"" && l[1..1 + |p.key|] == p.key && l[1 + |p.key|..6 + |p.key|] == Separator
      && l[6 + |p.key|..|l| - 4] == p.value && l[|l| - 4..] == "\";" + NewLine
  {
  }

  function Lines(ps: seq<Pair>): string
  {
    if ps == [] then "" else Line(ps[0]) + Lines(ps[1..])
  }

  /** The text SerializeForiOS writes: one line per non-blank pair, then one more line break. */
  function IosText(pairs: seq<Pair>): string
  {
    Lines(Kept(pairs)) + NewLine
  }

  lemma {:induction false} LinesAppend(a: seq<Pair>, b: seq<Pair>)
    ensures Lines(a + b) == Lines(a) + Lines(b)
  {
    if a == [] {
      assert a + b == b;
    } else {
      assert (a + b)[0] == a[0];
      assert (a + b)[1..] == a[1..] + b;
      LinesAppend(a[1..], b);
    }
  }

  /** The line of a pair, as the string builder appends it: the formatted pair, then a line break. */
  lemma LineSpelled(before: string, p: Pair)
    ensures before + ("\"" + p.key + "\" = \"" + p.value + "\";") + NewLine == before + Line(p)
  {
  }

  /** One more pair of the bucket: its line is added when its value is not blank. */
  lemma IosLinesStep(dict: seq<Pair>, i: nat)
    requires i < |dict|
    ensures Lines(Kept(dict[..i + 1])) ==
      Lines(Kept(dict[..i])) + if IsNullOrWhiteSpace(dict[i].value) then "" else Line(dict[i])
  {
    var kv := dict[i];
    assert dict[..i + 1] == dict[..i] + [kv];
    KeptSnoc(dict[..i], kv);
    if IsNullOrWhiteSpace(kv.value) {
      assert Kept(dict[..i]) + [] == Kept(dict[..i]);
    } else {
      LinesAppend(Kept(dict[..i]), [kv]);
      assert Lines([kv]) == Line(kv);
    }
  }

  /**
   * SerializeForiOS: append a line for every non-blank pair to a string
   * builder, then one more line break, and write the text to `filePath`; a
   * write that throws is caught and logged.
   */
  method SerializeForiOS(dict: seq<Pair>, filePath: string, failingFiles: set<string>) returns (a: Attempt)
    ensures a == Attempt(filePath, Text(IosText(dict)), filePath !in failingFiles)
  {
    var sb := "";
    var i := 0;
    while i < |dict|
      invariant 0 <= i <= |dict|
      invariant sb == Lines(Kept(dict[..i]))
    {
      var kv := dict[i];
      IosLinesStep(dict, i);
      if !IsNullOrWhiteSpace(kv.value) {
        ghost var before := sb;
        sb := sb + ("\"" + kv.key + "\" = \"" + kv.value + "\";");
        sb := sb + NewLine;
        LineSpelled(before, kv);
      }
      i := i + 1;
    }
    assert dict[..i] == dict;
    sb := sb + NewLine;
    a := Attempt(filePath, Text(sb), filePath !in failingFiles);
  }

  /** The text always ends in a line break, and is that line break alone exactly when nothing is kept. */
  lemma IosTextShape(pairs: seq<Pair>)
    ensures var t := IosText(pairs);
      |t| >= |NewLine| && t[|t| - |NewLine|..] == NewLine
    ensures IosText(pairs) == NewLine <==> Kept(pairs) == []
  {
    var ks := Kept(pairs);
    if ks != [] {
      assert |Lines(ks)| >= |Line(ks[0])| > 0;
    }
  }

  /** A bucket with no non-blank value yields a file holding a single line break. */
  lemma IosTextOfBlankBucket(pairs: seq<Pair>)
    requires forall p :: p in pairs ==> IsNullOrWhiteSpace(p.value)
    ensures IosText(pairs) == NewLine
  {
    KeptMembers(pairs);
  }

  /**
   * Nothing is escaped: a key holding `" = "` and a value holding it give the
   * same line, so the text cannot tell the two pairs apart.
   */
  lemma IosLineAmbiguous()
    ensures Pair("a\" = \"b", "c") != Pair("a", "b\" = \"c")
    ensures Line(Pair("a\" = \"b", "c")) == Line(Pair("a", "b\" = \"c"))
  {
  }

  /** Reads one line `"KEY" = "VALUE";` and its line break; the key ends at its first quote. */
  function ParseLine(line: string): Option<Pair>
  {
    if |line| < 1 + 5 + 4 || line[0] != '"' || line[|line| - 4..] != "\";" + NewLine then None
    else
      var body := line[1..|line| - 4];
      var j := IndexOf(body, '"');
      if j + 5 <= |body| && body[j..j + 5] == Separator then Some(Pair(body[..j], body[j + 5..]))
      else None
  }

  /** Reads consecutive lines, each ending at its first carriage return. */
  function ParseLines(s: string): Option<seq<Pair>>
    decreases |s|
  {
    if s == [] then Some([])
    else
      var j := IndexOf(s, '\r');
      if j + 2 > |s| || s[j..j + 2] != NewLine then None
      else
        match ParseLine(s[..j + 2])
        case None => None
        case Some(p) =>
          match ParseLines(s[j + 2..])
          case None => None
          case Some(ps) => Some([p] + ps)
  }

  /** Reads an iOS strings file: its lines, then the closing line break. */
  function ParseIos(text: string): Option<seq<Pair>>
  {
    if |text| < |NewLine| || text[|text| - |NewLine|..] != NewLine then None
    else ParseLines(text[..|text| - |NewLine|])
  }

  /** A pair whose key has no quote and neither part a carriage return can be read back. */
  predicate Readable(p: Pair)
  {
    '"' !in p.key && '\r' !in p.key && '\r' !in p.value
  }

  lemma LineRoundTrip(p: Pair)
    requires '"' !in p.key
    ensures ParseLine(Line(p)) == Some(p)
  {
    var line := Line(p);
    var sep := Separator;
    var body := p.key + sep + p.value;
    assert line == "\"" + body + ("\";" + NewLine);
    assert line[1..|line| - 4] == body;
    assert line[|line| - 4..] == "\";" + NewLine;
    var j := IndexOf(body, '"');
    assert body[|p.key|] == '"';
    forall i | 0 <= i < |p.key|
      ensures body[i] != '"'
    {
      assert body[i] == p.key[i];
    }
    assert j == |p.key|;
    assert body[j..j + 5] == sep;
    assert body[..j] == p.key;
    assert body[j + 5..] == p.value;
  }

  /** A line without a carriage return before its line break is split off at that break. */
  lemma SplitFirstLine(head: string, rest: string)
    requires '\r' !in head
    ensures var s := head + NewLine + rest;
      var j := IndexOf(s, '\r');
      j == |head| && j + 2 <= |s| && s[j..j + 2] == NewLine && s[..j + 2] == head + NewLine && s[j + 2..] == rest
  {
    var s := head + NewLine + rest;
    forall i | 0 <= i < |head|
      ensures s[i] != '\r'
    {
      assert s[i] == head[i];
      assert head[i] in head;
    }
    assert s[|head|] == '\r';
    var j := IndexOf(s, '\r');
    assert j == |head|;
    assert s[j..j + 2] == NewLine;
    assert s[..j + 2] == head + NewLine;
  }

  /** The reader takes a readable pair's line off the front of a text and goes on with the rest. */
  lemma ParseLinesStep(p: Pair, rest: string)
    requires Readable(p)
    ensures ParseLines(Line(p) + rest) == if ParseLines(rest).Some? then Some([p] + ParseLines(rest).value) else None
  {
    var head := "\"" + p.key + Separator + p.value + "\";";
    assert '\r' !in head;
    assert Line(p) + rest == head + NewLine + rest;
    SplitFirstLine(head, rest);
    assert head + NewLine == Line(p);
    LineRoundTrip(p);
  }

  lemma {:induction false} LinesRoundTrip(ps: seq<Pair>)
    requires forall p :: p in ps ==> Readable(p)
    ensures ParseLines(Lines(ps)) == Some(ps)
    decreases |ps|
  {
    if ps != [] {
      var p := ps[0];
      assert p in ps;
      assert Lines(ps) == Line(p) + Lines(ps[1..]);
      ParseLinesStep(p, Lines(ps[1..]));
      assert forall q :: q in ps[1..] ==> q in ps;
      LinesRoundTrip(ps[1..]);
      assert [p] + ps[1..] == ps;
    }
  }

  lemma SplitLast(a: string, b: string)
    ensures |a + b| >= |b|
    ensures (a + b)[..|a + b| - |b|] == a && (a + b)[|a + b| - |b|..] == b
  {
  }

  /**
   * Reading the iOS text back gives exactly the bucket's non-blank pairs, in
   * bucket order, as long as no written key holds a quote and no written key
   * or value a carriage return (nothing is escaped).
   */
  lemma IosRoundTrip(pairs: seq<Pair>)
    requires forall p :: p in Kept(pairs) ==> Readable(p)
    ensures ParseIos(IosText(pairs)) == Some(Kept(pairs))
  {
    SplitLast(Lines(Kept(pairs)), NewLine);
    LinesRoundTrip(Kept(pairs));
  }
}
