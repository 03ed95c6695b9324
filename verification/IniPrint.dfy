/** How a document is printed, and when parsing what was printed gives the document back. */
module IniPrint {
  import opened IniText

  /** The lines of a text, as getline cuts it: what stands between the newlines. */
  function Split(text: string): (lines: seq<string>)
    ensures |lines| >= 1
    decreases |text|
  {
    var i := Find(text, '\n');
    if i == |text| then [text] else [text[..i]] + Split(text[i + 1..])
  }

  function Interpreted(raws: seq<string>): (lines: seq<Line>)
    ensures |lines| == |raws|
  {
    seq(|raws|, i requires 0 <= i < |raws| => Interpret(raws[i]))
  }

  /** What parsing a text from scratch yields. */
  function Parsed(text: string): Option<State> {
    Meaning(EMPTY, Interpreted(Split(text)))
  }

  function HeaderRaw(name: string): string {
    "[" + name + "]"
  }

  function KeyRaw(key: string, value: string): string {
    key + "=" + value
  }

  /** makeSection and makeKeyValue end their line; save writes it up to its first NUL. */
  function Printed(raw: string): string {
    CString(raw + "\n")
  }

  /** One section, and the order in which its keys come. */
  datatype Entry = Entry(name: string, keys: seq<string>)

  predicate NoDuplicates(s: seq<string>) {
    forall i, j :: 0 <= i < j < |s| ==> s[i] != s[j]
  }

  function Names(order: seq<Entry>): (names: seq<string>)
    ensures |names| == |order|
  {
    seq(|order|, i requires 0 <= i < |order| => order[i].name)
  }

  function Elements(s: seq<string>): set<string> {
    set x | x in s
  }

  /** The order lists every section once, and every key of each once: any iteration order of the hash maps. */
  predicate Enumerates(order: seq<Entry>, doc: Document) {
    && NoDuplicates(Names(order)) && Elements(Names(order)) == doc.Keys
    && forall e :: e in order ==>
         e.name in doc && NoDuplicates(e.keys) && Elements(e.keys) == doc[e.name].Keys
  }

  /** The lines of the first keys of a section. */
  function KeyRaws(section: Section, keys: seq<string>): seq<string>
    requires Elements(keys) <= section.Keys
  {
    if keys == [] then []
    else
      var front, k := keys[..|keys| - 1], keys[|keys| - 1];
      KeyRaws(section, front) + [KeyRaw(k, section[k])]
  }

  function EntryRaws(doc: Document, e: Entry): seq<string>
    requires e.name in doc && Elements(e.keys) <= doc[e.name].Keys
  {
    if doc[e.name] == map[] then [] else [HeaderRaw(e.name)] + KeyRaws(doc[e.name], e.keys)
  }

  predicate Listed(order: seq<Entry>, doc: Document) {
    forall e :: e in order ==> e.name in doc && Elements(e.keys) <= doc[e.name].Keys
  }

  function DocRaws(doc: Document, order: seq<Entry>): seq<string>
    requires Listed(order, doc)
  {
    if order == [] then []
    else DocRaws(doc, order[..|order| - 1]) + EntryRaws(doc, order[|order| - 1])
  }

  /** The text save writes for these lines. */
  function Text(raws: seq<string>): string {
    if raws == [] then "" else Text(raws[..|raws| - 1]) + Printed(raws[|raws| - 1])
  }

  /** save leaves empty sections out. */
  function WithoutEmpty(doc: Document): Document {
    map s | s in doc && doc[s] != map[] :: doc[s]
  }

  // ---- Single lines ----------------------------------------------------------

  predicate KeyOk(k: string) {
    && k != "" && '=' !in k && '\n' !in k && '\0' !in k
    && !IsSpace(k[0]) && k[0] != '[' && !IsComment(k)
  }

  predicate ValueOk(v: string) {
    v != "" && '\n' !in v && '\0' !in v
  }

  predicate NameOk(s: string) {
    '\n' !in s && '\0' !in s
  }

  lemma TrimsNothing(c: string)
    requires c != "" && !IsSpace(c[|c| - 1])
    ensures TrimRight(c) == c
  {
  }

  /** A printed header reads back as itself exactly when its name has no NUL. */
  lemma HeaderLineExact(s: string)
    ensures Interpret(HeaderRaw(s)) == Header(s) <==> '\0' !in s
  {
    var raw := HeaderRaw(s);
    if '\0' !in s {
      CStringWhole(raw);
      TrimsNothing(raw);
      assert raw[1..|raw| - 1] == s;
    } else if Interpret(raw) == Header(s) {
      HeaderShape(raw, s);
    }
  }

  lemma HeaderShape(raw: string, s: string)
    requires Interpret(raw) == Header(s)
    ensures '\0' !in s
  {
    CStringWhole(raw);
    var c := CString(raw);
    var h := TrimRight(c);
    assert forall i :: 0 <= i < |s| ==> s[i] == h[i + 1] == c[i + 1];
  }

  lemma TokensOf(k: string, v: string)
    requires k != "" && '=' !in k
    ensures Tokens(KeyRaw(k, v)) == (k, v)
  {
    var c := KeyRaw(k, v);
    assert c[0] == k[0];
    assert c[..|k|] == k && c[|k| + 1..] == v;
    FindFirst(c, '=', |k|);
  }

  lemma TokensShape(c: string)
    requires '\0' !in c
    ensures var (k, v) := Tokens(c);
            '=' !in k && '\0' !in k && '\0' !in v && (v != "" ==> |k| + 1 + |v| <= |c|)
  {
    var t := SkipChar(c, '=');
    SkipCharIsSuffix(c, '=');
    FindStops(t, '=');
    var (k, v) := Tokens(c);
    hide SkipChar, Find;
    assert forall i {:trigger t[i]} :: 0 <= i < |t| ==> t[i] in c;
  }

  /** What Interpret can assign: no NUL, no leading space in the key, no `=` in it, a value. */
  lemma AssignShape(raw: string, k: string, v: string)
    requires Interpret(raw) == Assign(k, v)
    ensures v != "" && '\0' !in v && '\0' !in k && '=' !in k
    ensures k != "" ==> !IsSpace(k[0])
    ensures |v| + 1 < |raw|
  {
    hide Tokens, CString, SkipSpaces, TrimRight, IsComment, Find;
    var c := CString(raw);
    CStringWhole(raw);
    CStringShorter(raw);
    TokensShape(c);
    SkipSpacesIsSuffix(Tokens(c).0);
  }

  lemma CStringShorter(raw: string)
    ensures |CString(raw)| <= |raw|
  {
  }

  /** A printed key line reads back as itself exactly for the keys and values the format can hold. */
  lemma KeyLineExact(k: string, v: string)
    requires '\n' !in k && '\n' !in v
    ensures Interpret(KeyRaw(k, v)) == Assign(k, v) <==> KeyOk(k) && ValueOk(v)
  {
    var raw := KeyRaw(k, v);
    assert |raw| == |k| + 1 + |v|;
    if k != "" {
      assert raw[0] == k[0];
      assert IsComment(k) ==> IsComment(raw);
    }
    CStringWhole(raw);
    if KeyOk(k) && ValueOk(v) {
      TokensOf(k, v);
      assert !IsComment(raw);
    } else if Interpret(raw) == Assign(k, v) {
      AssignShape(raw, k, v);
    }
  }

  // ---- Whole documents -------------------------------------------------------

  lemma {:induction false} SplitLine(raw: string, rest: string)
    requires '\n' !in raw
    ensures Split(raw + "\n" + rest) == [raw] + Split(rest)
  {
    var text := raw + "\n" + rest;
    assert text[..|raw|] == raw && text[|raw| + 1..] == rest;
    FindFirst(text, '\n', |raw|);
  }

  predicate Clean(raws: seq<string>) {
    forall i :: 0 <= i < |raws| ==> '\n' !in raws[i] && '\0' !in raws[i]
  }

  /** A text of clean lines is cut into those lines and a last empty one. */
  lemma {:induction false} SplitText(raws: seq<string>, rest: string)
    requires Clean(raws)
    ensures Split(Text(raws) + rest) == raws + Split(rest)
    decreases |raws|
  {
    if raws == [] {
      assert Text(raws) + rest == rest;
    } else {
      var front, raw := raws[..|raws| - 1], raws[|raws| - 1];
      hide CString, Split;
      CStringWhole(raw + "\n");
      var line := raw + "\n";
      assert Text(raws) == Text(front) + line;
      hide Text;
      assert Text(front) + line + rest == Text(front) + (line + rest);
      SplitText(front, line + rest);
      SplitLine(raw, rest);
      assert front + ([raw] + Split(rest)) == raws + Split(rest);
    }
  }

  predicate Short(raws: seq<string>) {
    forall i :: 0 <= i < |raws| ==> |raws[i]| <= LINE_MAX
  }

  /** A value the format can hold, on a line that is not too long. */
  predicate PairOk(k: string, v: string) {
    KeyOk(k) && ValueOk(v) && |k| + 1 + |v| <= LINE_MAX
  }

  lemma HeaderRead(s: string)
    requires NameOk(s) && |s| + 2 <= LINE_MAX
    ensures Interpreted([HeaderRaw(s)]) == [Header(s)]
    ensures Clean([HeaderRaw(s)]) && Short([HeaderRaw(s)])
  {
    HeaderLineExact(s);
    hide Interpret;
  }

  lemma KeyRead(k: string, v: string)
    requires PairOk(k, v)
    ensures Interpreted([KeyRaw(k, v)]) == [Assign(k, v)]
    ensures Clean([KeyRaw(k, v)]) && Short([KeyRaw(k, v)])
  {
    KeyLineExact(k, v);
    hide Interpret, IsComment, IsSpace;
  }

  lemma InterpretedAppend(a: seq<string>, b: seq<string>)
    ensures Interpreted(a + b) == Interpreted(a) + Interpreted(b)
    ensures Clean(a) && Clean(b) ==> Clean(a + b)
    ensures Short(a) && Short(b) ==> Short(a + b)
  {
  }

  lemma MeaningOne(st: State, l: Line)
    requires Sound(st)
    ensures Meaning(st, [l]) == Step(st, l)
  {
  }

  /** The first keys of a section, as a map. */
  function Part(section: Section, keys: seq<string>): Section
    requires Elements(keys) <= section.Keys
  {
    map k | k in Elements(keys) :: section[k]
  }

  lemma PartNext(section: Section, front: seq<string>, k: string)
    requires Elements(front + [k]) <= section.Keys
    ensures Elements(front + [k]) == Elements(front) + {k}
    ensures Part(section, front + [k]) == Part(section, front)[k := section[k]]
  {
  }

  lemma {:induction false} KeysMeaning(st: State, section: Section, keys: seq<string>)
    requires Sound(st) && st.current.Some? && st.doc[st.current.value] == map[]
    requires Elements(keys) <= section.Keys
    requires forall k :: k in section ==> PairOk(k, section[k])
    ensures Clean(KeyRaws(section, keys)) && Short(KeyRaws(section, keys))
    ensures Meaning(st, Interpreted(KeyRaws(section, keys)))
         == Some(st.(doc := st.doc[st.current.value := Part(section, keys)]))
    decreases |keys|
  {
    hide PairOk, Interpreted, KeyRaw, Clean, Short;
    if keys == [] {
      NothingRead(st);
      assert Part(section, keys) == map[];
      assert st.doc[st.current.value := map[]] == st.doc;
    } else {
      var front, k := keys[..|keys| - 1], keys[|keys| - 1];
      assert front + [k] == keys;
      PartNext(section, front, k);
      KeysMeaning(st, section, front);
      KeyRead(k, section[k]);
      InterpretedAppend(KeyRaws(section, front), [KeyRaw(k, section[k])]);
      MeaningAppend(st, Interpreted(KeyRaws(section, front)), [Assign(k, section[k])]);
      var c := st.current.value;
      var mid := st.(doc := st.doc[c := Part(section, front)]);
      MeaningOne(mid, Assign(k, section[k]));
      hide Part, Meaning, Elements;
      assert mid.doc[c := mid.doc[c][k := section[k]]] == st.doc[c := Part(section, keys)];
    }
  }

  lemma NothingRead(st: State)
    requires Sound(st)
    ensures Meaning(st, Interpreted([])) == Some(st) && Clean([]) && Short([])
  {
  }

  /** Everything in the document can be written down in one line of at most 1023 characters. */
  predicate Printable(doc: Document) {
    forall s :: s in doc && doc[s] != map[] ==> SectionOk(s, doc[s])
  }

  predicate SectionOk(s: string, section: Section) {
    NameOk(s) && |s| + 2 <= LINE_MAX && forall k :: k in section ==> PairOk(k, section[k])
  }

  lemma EntryMeaning(st: State, doc: Document, e: Entry)
    requires Sound(st) && Printable(doc)
    requires e.name in doc && Elements(e.keys) == doc[e.name].Keys
    ensures Clean(EntryRaws(doc, e)) && Short(EntryRaws(doc, e))
    ensures Meaning(st, Interpreted(EntryRaws(doc, e))).Some?
    ensures Meaning(st, Interpreted(EntryRaws(doc, e))).value.doc
         == if doc[e.name] == map[] then st.doc else st.doc[e.name := doc[e.name]]
  {
    hide PairOk, Interpreted, KeyRaw, HeaderRaw, NameOk, Clean, Short, Meaning, KeyRaws;
    var section := doc[e.name];
    if section == map[] {
      NothingRead(st);
    } else {
      HeaderRead(e.name);
      var opening := State(st.doc[e.name := map[]], Some(e.name));
      MeaningOne(st, Header(e.name));
      KeysMeaning(opening, section, e.keys);
      assert Part(section, e.keys) == section;
      InterpretedAppend([HeaderRaw(e.name)], KeyRaws(section, e.keys));
      MeaningAppend(st, [Header(e.name)], Interpreted(KeyRaws(section, e.keys)));
      assert opening.doc[e.name := section] == st.doc[e.name := section];
    }
  }

  /** The sections of the first entries. */
  function Kept(doc: Document, order: seq<Entry>): Document
    requires Listed(order, doc)
  {
    map s | s in Elements(Names(order)) && s in doc && doc[s] != map[] :: doc[s]
  }

  lemma KeptNext(doc: Document, front: seq<Entry>, e: Entry)
    requires Listed(front + [e], doc)
    ensures Listed(front, doc) && e.name in doc
    ensures Kept(doc, front + [e])
         == if doc[e.name] == map[] then Kept(doc, front) else Kept(doc, front)[e.name := doc[e.name]]
  {
    assert e in front + [e];
    assert Names(front + [e]) == Names(front) + [e.name];
    assert Elements(Names(front + [e])) == Elements(Names(front)) + {e.name};
  }

  predicate ListedExactly(order: seq<Entry>, doc: Document) {
    forall e :: e in order ==> e.name in doc && Elements(e.keys) == doc[e.name].Keys
  }

  lemma {:induction false} DocMeaning(doc: Document, order: seq<Entry>)
    requires Printable(doc) && ListedExactly(order, doc)
    ensures Listed(order, doc)
    ensures Clean(DocRaws(doc, order)) && Short(DocRaws(doc, order))
    ensures Meaning(EMPTY, Interpreted(DocRaws(doc, order))).Some?
    ensures Meaning(EMPTY, Interpreted(DocRaws(doc, order))).value.doc == Kept(doc, order)
    decreases |order|
  {
    hide Printable, Interpreted, Clean, Short, EntryRaws, Meaning;
    if order == [] {
      NothingRead(EMPTY);
    } else {
      var front, e := order[..|order| - 1], order[|order| - 1];
      assert front + [e] == order;
      DocMeaning(doc, front);
      KeptNext(doc, front, e);
      var st := Meaning(EMPTY, Interpreted(DocRaws(doc, front))).value;
      EntryMeaning(st, doc, e);
      InterpretedAppend(DocRaws(doc, front), EntryRaws(doc, e));
      MeaningAppend(EMPTY, Interpreted(DocRaws(doc, front)), Interpreted(EntryRaws(doc, e)));
    }
  }

  /** Parsing what save wrote, in whatever order, gives the document back without its empty sections. */
  lemma SaveThenParse(doc: Document, order: seq<Entry>)
    requires Printable(doc) && Enumerates(order, doc)
    ensures Listed(order, doc)
    ensures var text := Text(DocRaws(doc, order));
            Short(Split(text)) && Parsed(text).Some? && Parsed(text).value.doc == WithoutEmpty(doc)
  {
    assert Kept(doc, order) == WithoutEmpty(doc);
    hide Printable, Kept, WithoutEmpty, Text, DocRaws, Meaning;
    DocMeaning(doc, order);
    var raws := DocRaws(doc, order);
    SplitText(raws, "");
    assert Text(raws) + "" == Text(raws);
    InterpretedAppend(raws, [""]);
    BlankRead();
    hide Split, Interpreted;
    SkipAnywhere(EMPTY, Interpreted(raws), []);
    assert Interpreted(raws) + [Skip] + [] == Interpreted(raws) + [Skip];
    assert Interpreted(raws) + [] == Interpreted(raws);
  }

  lemma BlankRead()
    ensures Split("") == [""] && Interpreted([""]) == [Skip] && Short([""])
  {
  }
}
