/**
 The exact condition of the text round trip. A text that reads back as the
 document it was printed from can only have been printed from a document whose
 every name, key and value survives on its own line.
 */
module IniExact {
  import opened IniText
  import opened IniPrint
  import opened IniStream

  lemma {:induction false} SplitHasNoNewline(text: string)
    ensures forall i :: 0 <= i < |Split(text)| ==> '\n' !in Split(text)[i]
    decreases |text|
  {
    var i := Find(text, '\n');
    FindStops(text, '\n');
    if i == |text| {
    } else {
      SplitHasNoNewline(text[i + 1..]);
    }
  }

  predicate Within(s: string, t: string) {
    forall x :: x in s ==> x in t
  }

  /** Whatever Interpret finds in a line is made of the characters of the line. */
  lemma FromLine(raw: string)
    ensures Interpret(raw).Header? ==> Within(Interpret(raw).name, raw)
    ensures Interpret(raw).Assign? ==> Within(Interpret(raw).key, raw) && Within(Interpret(raw).value, raw)
  {
    var c := CString(raw);
    assert Within(c, raw);
    FromTrimmed(c);
    FromTokens(c);
    SpacesWithin(Tokens(c).0);
    hide Tokens, CString, TrimRight, SkipSpaces;
  }

  lemma SpacesWithin(k: string)
    ensures Within(SkipSpaces(k), k)
  {
  }

  lemma FromTrimmed(c: string)
    ensures |TrimRight(c)| >= 2 ==> Within(TrimRight(c)[1..|TrimRight(c)| - 1], c)
  {
  }

  lemma FromTokens(c: string)
    ensures Within(Tokens(c).0, c) && Within(Tokens(c).1, c)
  {
    SkipCharIsSuffix(c, '=');
    var t := SkipChar(c, '=');
    hide SkipChar, Find;
    assert Within(t, c);
  }

  /** Where a raw line of a printed document comes from. */
  ghost predicate HeaderOf(doc: Document, raw: string, s: string) {
    s in doc && doc[s] != map[] && raw == HeaderRaw(s)
  }

  ghost predicate KeyOf(doc: Document, raw: string, s: string, k: string) {
    s in doc && k in doc[s] && raw == KeyRaw(k, doc[s][k])
  }

  ghost predicate Traceable(doc: Document, raw: string) {
    (exists s :: HeaderOf(doc, raw, s)) || (exists s, k :: KeyOf(doc, raw, s, k))
  }

  lemma {:induction false} KeysTraced(doc: Document, s: string, keys: seq<string>)
    requires s in doc && Elements(keys) <= doc[s].Keys
    ensures forall raw :: raw in KeyRaws(doc[s], keys) ==> Traceable(doc, raw)
  {
    if keys == [] {
    } else {
      var k := keys[|keys| - 1];
      KeysTraced(doc, s, keys[..|keys| - 1]);
      assert KeyOf(doc, KeyRaw(k, doc[s][k]), s, k);
    }
  }

  lemma {:induction false} RawsTraced(doc: Document, order: seq<Entry>)
    requires Listed(order, doc)
    ensures forall raw :: raw in DocRaws(doc, order) ==> Traceable(doc, raw)
  {
    if order == [] {
    } else {
      var e := order[|order| - 1];
      RawsTraced(doc, order[..|order| - 1]);
      if doc[e.name] != map[] {
        assert HeaderOf(doc, HeaderRaw(e.name), e.name);
        KeysTraced(doc, e.name, e.keys);
      }
    }
  }

  /** Every section and every value of the result stands in some line. */
  ghost predicate Stated(doc: Document, lines: seq<Line>) {
    && (forall s :: s in doc ==> Header(s) in lines)
    && (forall s, k :: s in doc && k in doc[s] ==> Assign(k, doc[s][k]) in lines)
  }

  lemma ResultStated(lines: seq<Line>)
    requires Meaning(EMPTY, lines).Some?
    ensures Stated(Meaning(EMPTY, lines).value.doc, lines)
  {
  }

  /** What can be stated by a line with no newline in it. */
  ghost predicate Plain(doc: Document) {
    forall s :: s in doc ==> NameOk(s) && forall k :: k in doc[s] ==> PlainPair(k, doc[s][k])
  }

  predicate PlainPair(k: string, v: string) {
    '\n' !in k && '\0' !in k && '=' !in k && (k != "" ==> !IsSpace(k[0])) && ValueOk(v)
  }

  lemma StatedIsPlain(doc: Document, raws: seq<string>)
    requires Stated(doc, Interpreted(raws))
    requires forall i :: 0 <= i < |raws| ==> '\n' !in raws[i]
    ensures Plain(doc)
  {
    hide Interpret;
    var lines := Interpreted(raws);
    forall s | s in doc
      ensures NameOk(s)
    {
      var i :| 0 <= i < |lines| && lines[i] == Header(s);
      FromLine(raws[i]);
      HeaderShape(raws[i], s);
    }
    forall s, k | s in doc && k in doc[s]
      ensures PlainPair(k, doc[s][k])
    {
      var i :| 0 <= i < |lines| && lines[i] == Assign(k, doc[s][k]);
      FromLine(raws[i]);
      AssignShape(raws[i], k, doc[s][k]);
    }
  }

  /** Lines printed from plain names, keys and values can be told apart again. */
  lemma PlainIsClean(doc: Document, raws: seq<string>)
    requires Plain(WithoutEmpty(doc)) && forall raw :: raw in raws ==> Traceable(doc, raw)
    ensures Clean(raws)
  {
    forall i | 0 <= i < |raws|
      ensures '\n' !in raws[i] && '\0' !in raws[i]
    {
      assert Traceable(doc, raws[i]);
      if s :| HeaderOf(doc, raws[i], s) {
        assert s in WithoutEmpty(doc);
      } else {
        var s, k :| KeyOf(doc, raws[i], s, k);
        assert s in WithoutEmpty(doc);
        assert PlainPair(k, doc[s][k]);
      }
    }
  }

  /** A stated value comes from a key line: its own, or one whose key is empty and whose value is longer. */
  lemma WhoStates(doc: Document, raws: seq<string>, k: string, v: string)
    requires Plain(WithoutEmpty(doc)) && forall raw :: raw in raws ==> Traceable(doc, raw)
    requires Assign(k, v) in Interpreted(raws + [""])
    ensures Interpret(KeyRaw(k, v)) == Assign(k, v)
         || exists s :: s in doc && "" in doc[s] && |doc[s][""]| > |v| && KeyRaw("", doc[s][""]) in raws
  {
    var lines := Interpreted(raws + [""]);
    var i :| 0 <= i < |lines| && lines[i] == Assign(k, v);
    var raw := (raws + [""])[i];
    assert Interpret(raw) == Assign(k, v);
    BlankRead();
    assert raw != "";
    assert raw == raws[i] && raw in raws;
    if s :| HeaderOf(doc, raw, s) {
      HeaderAssignsNothing(s);
    } else {
      var s, j :| KeyOf(doc, raw, s, j);
      assert s in WithoutEmpty(doc);
      assert PlainPair(j, doc[s][j]);
      AssignShape(raw, k, v);
      if j != "" {
        KeyAssignsItself(j, doc[s][j], k, v);
      }
    }
  }

  lemma HeaderAssignsNothing(s: string)
    ensures !Interpret(HeaderRaw(s)).Assign?
  {
  }

  lemma KeyAssignsItself(j: string, w: string, k: string, v: string)
    requires j != "" && PlainPair(j, w) && Interpret(KeyRaw(j, w)) == Assign(k, v)
    ensures j == k && w == v
  {
    TokensOf(j, w);
    CStringWhole(KeyRaw(j, w));
    hide Tokens, CString;
    assert SkipSpaces(j) == j;
  }

  /** The value of an empty key could only be restated from a longer one, so there is none. */
  lemma {:induction false} NoEmptyKey(doc: Document, raws: seq<string>, s: string)
    requires Plain(WithoutEmpty(doc)) && (forall raw :: raw in raws ==> Traceable(doc, raw)) && Short(raws)
    requires Stated(WithoutEmpty(doc), Interpreted(raws + [""]))
    requires s in doc
    ensures "" in doc[s] ==> KeyRaw("", doc[s][""]) !in raws
    decreases LINE_MAX - if "" in doc[s] then |doc[s][""]| else 0
  {
    hide Plain, Traceable, Interpret;
    if "" in doc[s] && KeyRaw("", doc[s][""]) in raws {
      var v := doc[s][""];
      assert s in WithoutEmpty(doc);
      WhoStates(doc, raws, "", v);
      KeyLineExactEmpty(v);
      var t :| t in doc && "" in doc[t] && |doc[t][""]| > |v| && KeyRaw("", doc[t][""]) in raws;
      assert |KeyRaw("", doc[t][""])| <= LINE_MAX;
      NoEmptyKey(doc, raws, t);
    }
  }

  lemma KeyLineExactEmpty(v: string)
    ensures Interpret(KeyRaw("", v)) != Assign("", v)
  {
    if Interpret(KeyRaw("", v)) == Assign("", v) {
      AssignShape(KeyRaw("", v), "", v);
    }
  }

  /** Every key of a document that reads back stands on a line that reads back. */
  lemma KeysReadBack(doc: Document, raws: seq<string>, s: string, k: string)
    requires Plain(WithoutEmpty(doc)) && (forall raw :: raw in raws ==> Traceable(doc, raw)) && Short(raws)
    requires Stated(WithoutEmpty(doc), Interpreted(raws + [""]))
    requires s in doc && k in doc[s]
    ensures KeyOk(k) && ValueOk(doc[s][k])
  {
    hide Traceable, Interpret, KeyOk;
    assert s in WithoutEmpty(doc);
    assert PlainPair(k, doc[s][k]);
    WhoStates(doc, raws, k, doc[s][k]);
    if Interpret(KeyRaw(k, doc[s][k])) == Assign(k, doc[s][k]) {
      KeyLineExact(k, doc[s][k]);
    } else {
      var t :| t in doc && "" in doc[t] && |doc[t][""]| > |doc[s][k]| && KeyRaw("", doc[t][""]) in raws;
      NoEmptyKey(doc, raws, t);
    }
  }

  lemma {:induction false} KeysAreThere(section: Section, keys: seq<string>, k: string)
    requires Elements(keys) <= section.Keys && k in keys
    ensures KeyRaw(k, section[k]) in KeyRaws(section, keys)
  {
    if k != keys[|keys| - 1] {
      assert k in keys[..|keys| - 1];
      KeysAreThere(section, keys[..|keys| - 1], k);
    }
  }

  lemma {:induction false} EntriesAreThere(doc: Document, order: seq<Entry>, e: Entry, raw: string)
    requires Listed(order, doc) && e in order && raw in EntryRaws(doc, e)
    ensures raw in DocRaws(doc, order)
  {
    if e != order[|order| - 1] {
      assert e in order[..|order| - 1];
      EntriesAreThere(doc, order[..|order| - 1], e, raw);
    }
  }

  /** save prints a line for every non-empty section and one for each of its keys. */
  lemma AllPrinted(doc: Document, order: seq<Entry>, s: string)
    requires Enumerates(order, doc) && Listed(order, doc) && s in doc && doc[s] != map[]
    ensures HeaderRaw(s) in DocRaws(doc, order)
    ensures forall k :: k in doc[s] ==> KeyRaw(k, doc[s][k]) in DocRaws(doc, order)
  {
    assert s in Elements(Names(order));
    var i :| 0 <= i < |order| && order[i].name == s;
    var e := order[i];
    EntriesAreThere(doc, order, e, HeaderRaw(s));
    forall k | k in doc[s]
      ensures KeyRaw(k, doc[s][k]) in DocRaws(doc, order)
    {
      assert k in Elements(e.keys);
      KeysAreThere(doc[s], e.keys, k);
      EntriesAreThere(doc, order, e, KeyRaw(k, doc[s][k]));
    }
  }

  /** The round trip succeeded: the parse came to its end, nothing was undefined, the same non-empty sections. */
  ghost predicate ReadsBack(doc: Document, text: string) {
    Ends(text) && Parsed(text).Some? && Parsed(text).value.doc == WithoutEmpty(doc)
  }

  /**
   For every document and every iteration order, what save writes reads back
   as the document without its empty sections if and only if the document is
   printable.
   */
  lemma RoundTripExact(doc: Document, order: seq<Entry>)
    requires Enumerates(order, doc)
    ensures Listed(order, doc)
    ensures ReadsBack(doc, Text(DocRaws(doc, order))) <==> Printable(doc)
  {
    var raws := DocRaws(doc, order);
    var text := Text(raws);
    EndsExact(text);
    if Printable(doc) {
      SaveThenParse(doc, order);
    } else if ReadsBack(doc, text) {
      OnlyPrintable(doc, order);
    }
  }

  lemma OnlyPrintable(doc: Document, order: seq<Entry>)
    requires Enumerates(order, doc) && Listed(order, doc)
    requires ReadsBack(doc, Text(DocRaws(doc, order)))
    ensures Printable(doc)
  {
    hide Plain, Traceable, Interpret, KeyOk, Text, DocRaws, Meaning, Stated;
    var raws := DocRaws(doc, order);
    var text := Text(raws);
    EndsExact(text);
    SplitHasNoNewline(text);
    ResultStated(Interpreted(Split(text)));
    StatedIsPlain(WithoutEmpty(doc), Split(text));
    RawsTraced(doc, order);
    PlainIsClean(doc, raws);
    SplitText(raws, "");
    assert Text(raws) + "" == Text(raws);
    BlankRead();
    assert Split(text) == raws + [""];
    forall i | 0 <= i < |raws|
      ensures |raws[i]| <= LINE_MAX
    {
      assert raws[i] == Split(text)[i];
    }
    forall s | s in doc && doc[s] != map[]
      ensures SectionOk(s, doc[s])
    {
      AllPrinted(doc, order, s);
      assert NameOk(s) by { PlainName(WithoutEmpty(doc), s); }
      assert |HeaderRaw(s)| == |s| + 2;
      forall k | k in doc[s]
        ensures PairOk(k, doc[s][k])
      {
        KeysReadBack(doc, raws, s, k);
        assert |KeyRaw(k, doc[s][k])| == |k| + 1 + |doc[s][k]|;
      }
    }
  }

  lemma PlainName(doc: Document, s: string)
    requires Plain(doc) && s in doc
    ensures NameOk(s)
  {
  }
}
