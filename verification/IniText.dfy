/** The INI text format: what one line means, what a document means, and how a document is printed. */
module IniText {

  type Section = map<string, string>
  type Document = map<string, Section>

  const LINE_MAX := 1023

  /** What the parser does with a line; `Undefined` is a header line whose name length underflows. */
  datatype Line = Skip | Header(name: string) | Assign(key: string, value: string) | Undefined

  predicate IsSpace(c: char) {
    c == ' ' || c == '\t' || c == '\n' || c == '\U{0B}' || c == '\U{0C}' || c == '\r'
  }

  /** The index of the first `c` in s, or |s|. */
  function Find(s: string, c: char): (i: nat)
    ensures i <= |s|
  {
    if s == "" || s[0] == c then 0 else 1 + Find(s[1..], c)
  }

  lemma {:induction false} FindStops(s: string, c: char)
    ensures var i := Find(s, c);
            (forall j :: 0 <= j < i ==> s[j] != c) && (i < |s| ==> s[i] == c)
  {
    if s == "" || s[0] == c {
    } else {
      FindStops(s[1..], c);
      assert forall j {:trigger s[j]} :: 1 <= j < |s| ==> s[j] == s[1..][j - 1];
    }
  }

  lemma {:induction false} FindFirst(s: string, c: char, i: nat)
    requires i <= |s| && (forall j :: 0 <= j < i ==> s[j] != c) && (i < |s| ==> s[i] == c)
    ensures Find(s, c) == i
  {
    if i == 0 {
    } else {
      assert forall j {:trigger s[1..][j]} :: 0 <= j < |s| - 1 ==> s[1..][j] == s[j + 1];
      FindFirst(s[1..], c, i - 1);
    }
  }

  /** The C string in a character buffer: what stands before the first NUL. */
  function CString(s: string): string {
    s[..Find(s, '\0')]
  }

  lemma CStringWhole(s: string)
    ensures '\0' !in s <==> CString(s) == s
    ensures '\0' !in CString(s)
  {
    FindStops(s, '\0');
    if '\0' !in s {
      FindFirst(s, '\0', |s|);
    }
  }

  /** s without its leading `c`s. */
  function SkipChar(s: string, c: char): string {
    if s == "" || s[0] != c then s else SkipChar(s[1..], c)
  }

  lemma {:induction false} SkipCharIsSuffix(s: string, c: char)
    ensures var r := SkipChar(s, c);
            |r| <= |s| && r == s[|s| - |r|..] && (r != "" ==> r[0] != c)
  {
    if s == "" || s[0] != c {
    } else {
      SkipCharIsSuffix(s[1..], c);
    }
  }

  function SkipSpaces(s: string): string {
    if s == "" || !IsSpace(s[0]) then s else SkipSpaces(s[1..])
  }

  lemma {:induction false} SkipSpacesIsSuffix(s: string)
    ensures var r := SkipSpaces(s);
            |r| <= |s| && r == s[|s| - |r|..] && (r != "" ==> !IsSpace(r[0]))
  {
    if s == "" || !IsSpace(s[0]) {
    } else {
      SkipSpacesIsSuffix(s[1..]);
    }
  }

  function TrimRight(s: string): (r: string)
    ensures r <= s && (r != "" ==> !IsSpace(r[|r| - 1]))
    ensures forall i :: |r| <= i < |s| ==> IsSpace(s[i])
  {
    if s == "" || !IsSpace(s[|s| - 1]) then s else TrimRight(s[..|s| - 1])
  }

  predicate IsComment(c: string) {
    (|c| >= 2 && c[0] == '/' && c[1] == '/') || (|c| >= 1 && c[0] == '#')
  }

  /** strtok(line, "=") and strtok(NULL, "\n"): the key token and the rest of the line behind its `=`. */
  function Tokens(c: string): (string, string) {
    var t := SkipChar(c, '=');
    var i := Find(t, '=');
    (t[..i], if i == |t| then "" else t[i + 1..])
  }

  /** The meaning of one line that getline delivered. */
  function Interpret(raw: string): Line {
    var c := CString(raw);
    if c == "" || IsComment(c) then Skip
    else if c[0] == '[' then
      var h := TrimRight(c);
      if |h| < 2 then Undefined else Header(h[1..|h| - 1])
    else
      var (k, v) := Tokens(c);
      if k == "" || v == "" then Skip else Assign(SkipSpaces(k), v)
  }

  // ---- Documents -----------------------------------------------------------

  datatype Option<T> = None | Some(value: T)

  /** The sections so far, and the section that key lines go to. */
  datatype State = State(doc: Document, current: Option<string>)

  predicate Sound(st: State) {
    st.current.Some? ==> st.current.value in st.doc
  }

  const EMPTY := State(map[], None)

  /** One line; `None` where the parser's behaviour is undefined: a key line needs a section to go to. */
  function Step(st: State, l: Line): (r: Option<State>)
    requires Sound(st)
    ensures r.Some? ==> Sound(r.value)
  {
    match l
    case Skip => Some(st)
    case Header(s) => Some(State(st.doc[s := map[]], Some(s)))
    case Assign(k, v) =>
      if st.current.None? then None
      else
        var s := st.current.value;
        Some(st.(doc := st.doc[s := st.doc[s][k := v]]))
    case Undefined => None
  }

  /** All lines in order. */
  function Meaning(st: State, lines: seq<Line>): (r: Option<State>)
    requires Sound(st)
    ensures r.Some? ==> Sound(r.value)
  {
    if lines == [] then Some(st)
    else match Meaning(st, lines[..|lines| - 1])
      case None => None
      case Some(m) => Step(m, lines[|lines| - 1])
  }

  lemma {:induction false} MeaningAppend(st: State, a: seq<Line>, b: seq<Line>)
    requires Sound(st)
    ensures Meaning(st, a + b) == match Meaning(st, a)
                                  case None => None
                                  case Some(m) => Meaning(m, b)
    decreases |b|
  {
    if b == [] {
      assert a + b == a;
    } else {
      MeaningAppend(st, a, b[..|b| - 1]);
      assert (a + b)[..|a + b| - 1] == a + b[..|b| - 1];
    }
  }

  /** Blank lines, comments and lines without a value change nothing, wherever they stand. */
  lemma SkipAnywhere(st: State, a: seq<Line>, b: seq<Line>)
    requires Sound(st)
    ensures Meaning(st, a + [Skip] + b) == Meaning(st, a + b)
  {
    MeaningAppend(st, a, b);
    MeaningAppend(st, a, [Skip]);
    MeaningAppend(st, a + [Skip], b);
    if Meaning(st, a).Some? {
      assert [Skip][..0] == [];
      assert Meaning(Meaning(st, a).value, [Skip]) == Meaning(st, a);
    }
  }

  // ---- The last-wins reading of a document -----------------------------------

  /** Line h is the last header that names s. */
  ghost predicate LastHeader(lines: seq<Line>, s: string, h: nat) {
    && h < |lines| && lines[h] == Header(s)
    && forall i :: h < i < |lines| ==> lines[i] != Header(s)
  }

  /** Line i belongs to the section that line h opens. */
  ghost predicate Under(lines: seq<Line>, h: nat, i: nat) {
    h < i < |lines| && forall j :: h < j <= i ==> !lines[j].Header?
  }

  /** Line i is the last under h to give k a value. */
  ghost predicate LastValue(lines: seq<Line>, h: nat, k: string, i: nat) {
    && Under(lines, h, i) && lines[i].Assign? && lines[i].key == k
    && forall j :: i < j < |lines| && Under(lines, h, j) && lines[j].Assign? ==> lines[j].key != k
  }

  /** Line h is the last header of all. */
  ghost predicate LastOfAll(lines: seq<Line>, h: nat) {
    h < |lines| && lines[h].Header? && forall i :: h < i < |lines| ==> !lines[i].Header?
  }

  /**
   Every line's effect is what it looks like: a section exists when a header
   names it, and holds the values that stand under the last such header, the
   last value of a key winning.
   */
  ghost predicate LastWins(lines: seq<Line>, st: State) {
    && (forall h: nat :: LastOfAll(lines, h) ==> st.current == Some(lines[h].name))
    && (st.current.Some? ==> exists h: nat :: LastOfAll(lines, h))
    && (forall s :: s in st.doc ==> exists h: nat :: LastHeader(lines, s, h))
    && (forall s, h: nat :: LastHeader(lines, s, h) ==> s in st.doc && SectionIs(lines, h, st.doc[s]))
  }

  ghost predicate SectionIs(lines: seq<Line>, h: nat, section: Section) {
    && (forall k :: k in section ==> exists i: nat :: LastValue(lines, h, k, i))
    && (forall k, i: nat :: LastValue(lines, h, k, i) ==> k in section && section[k] == lines[i].value)
  }

  lemma {:induction false} ParseIsLastWins(lines: seq<Line>)
    requires Meaning(EMPTY, lines).Some?
    ensures LastWins(lines, Meaning(EMPTY, lines).value)
  {
    if lines == [] {
    } else {
      var front, l := lines[..|lines| - 1], lines[|lines| - 1];
      assert front + [l] == lines;
      ParseIsLastWins(front);
      var st := Meaning(EMPTY, front).value;
      assert Meaning(EMPTY, lines) == Step(st, l);
      hide LastWins, Meaning;
      match l
      case Skip => SkipLast(front, st);
      case Header(s) => HeaderLast(front, st, s);
      case Assign(k, v) => AssignLast(front, st, k, v);
      case Undefined =>
    }
  }

  /** A line that is no header leaves the last headers what they are. */
  lemma HeadersKept(front: seq<Line>, l: Line)
    requires !l.Header?
    ensures forall h: nat :: LastOfAll(front, h) <==> LastOfAll(front + [l], h)
    ensures forall s, h: nat :: LastHeader(front, s, h) <==> LastHeader(front + [l], s, h)
  {
    var lines := front + [l];
    assert forall i {:trigger front[i]} :: 0 <= i < |front| ==> lines[i] == front[i];
    forall h: nat
      ensures LastOfAll(front, h) <==> LastOfAll(lines, h)
    {
    }
    forall s, h: nat
      ensures LastHeader(front, s, h) <==> LastHeader(lines, s, h)
    {
    }
  }

  lemma SkipLast(front: seq<Line>, st: State)
    requires LastWins(front, st)
    ensures LastWins(front + [Skip], st)
  {
    hide LastOfAll, SectionIs;
    var lines := front + [Skip];
    HeadersKept(front, Skip);
    assert forall h: nat :: LastOfAll(front, h) ==> lines[h] == front[h] by { Inside(front); }
    forall s, h: nat | LastHeader(lines, s, h)
      ensures s in st.doc && SectionIs(lines, h, st.doc[s])
    {
      assert LastHeader(front, s, h);
      SectionKept(front, Skip, h, st.doc[s]);
    }
  }

  lemma Inside(lines: seq<Line>)
    ensures forall h: nat :: LastOfAll(lines, h) ==> h < |lines|
  {
  }

  /** A line that assigns nothing under h leaves h's section as it is. */
  lemma SectionKept(front: seq<Line>, l: Line, h: nat, section: Section)
    requires h < |front| && SectionIs(front, h, section)
    requires !l.Assign? || !Under(front + [l], h, |front|)
    ensures SectionIs(front + [l], h, section)
  {
    var lines := front + [l];
    assert forall i {:trigger front[i]} :: 0 <= i < |front| ==> lines[i] == front[i];
    assert forall i: nat :: Under(front, h, i) <==> (Under(lines, h, i) && i < |front|);
    forall k, i: nat
      ensures LastValue(front, h, k, i) <==> LastValue(lines, h, k, i)
    {
    }
  }

  /** A new header is the last of all and the last of its section; the other sections keep theirs. */
  lemma HeaderPlaced(front: seq<Line>, s: string)
    ensures forall h: nat :: LastOfAll(front + [Header(s)], h) <==> h == |front|
    ensures forall h: nat :: LastHeader(front + [Header(s)], s, h) <==> h == |front|
    ensures forall t, h: nat :: t != s ==> (LastHeader(front + [Header(s)], t, h) <==> LastHeader(front, t, h))
  {
    var lines := front + [Header(s)];
    assert forall i {:trigger front[i]} :: 0 <= i < |front| ==> lines[i] == front[i];
    assert lines[|front|] == Header(s);
    forall t, h: nat | t != s
      ensures LastHeader(lines, t, h) <==> LastHeader(front, t, h)
    {
    }
  }

  lemma HeaderInside(lines: seq<Line>)
    ensures forall s, h: nat :: LastHeader(lines, s, h) ==> h < |lines|
  {
  }

  lemma NothingUnder(front: seq<Line>, l: Line)
    ensures SectionIs(front + [l], |front|, map[])
  {
  }

  lemma HeaderLast(front: seq<Line>, st: State, s: string)
    requires LastWins(front, st)
    ensures LastWins(front + [Header(s)], State(st.doc[s := map[]], Some(s)))
  {
    hide LastOfAll, LastHeader, SectionIs;
    var lines, doc := front + [Header(s)], st.doc[s := map[]];
    HeaderPlaced(front, s);
    HeaderInside(front);
    NothingUnder(front, Header(s));
    assert LastOfAll(lines, |front|) && lines[|front|].name == s;
    forall t, h: nat | LastHeader(lines, t, h)
      ensures t in doc && SectionIs(lines, h, doc[t])
    {
      if t != s {
        assert LastHeader(front, t, h);
        SectionKept(front, Header(s), h, st.doc[t]);
      }
    }
    forall t | t in doc
      ensures exists h: nat :: LastHeader(lines, t, h)
    {
      if t == s {
        assert LastHeader(lines, t, |front|);
      } else {
        var h: nat :| LastHeader(front, t, h);
        assert LastHeader(lines, t, h);
      }
    }
  }

  lemma AssignLast(front: seq<Line>, st: State, k: string, v: string)
    requires LastWins(front, st) && Sound(st) && st.current.Some?
    ensures LastWins(front + [Assign(k, v)], Step(st, Assign(k, v)).value)
  {
    hide LastOfAll, LastHeader, SectionIs;
    var l := Assign(k, v);
    var lines := front + [l];
    HeadersKept(front, l);
    Inside(front);
    var c := st.current.value;
    var doc := Step(st, l).value.doc;
    var last: nat :| LastOfAll(front, last);
    forall s, h: nat | LastHeader(lines, s, h)
      ensures s in doc && SectionIs(lines, h, doc[s])
    {
      assert LastHeader(front, s, h);
      LastOrBefore(front, last, s, h);
      if h == last {
        SectionGrows(front, k, v, h, st.doc[s]);
      } else {
        NotUnder(front, l, h, last);
        SectionKept(front, l, h, st.doc[s]);
      }
    }
  }

  /** The last header of all is the last of its section, and the only one. */
  lemma LastOrBefore(lines: seq<Line>, last: nat, s: string, h: nat)
    requires LastOfAll(lines, last) && LastHeader(lines, s, h)
    ensures h <= last < |lines| && (h == last <==> s == lines[last].name)
  {
  }

  lemma NotUnder(front: seq<Line>, l: Line, h: nat, last: nat)
    requires h < last && LastOfAll(front, last)
    ensures !Under(front + [l], h, |front|)
  {
    assert (front + [l])[last] == front[last];
  }

  lemma SectionGrows(front: seq<Line>, k: string, v: string, h: nat, section: Section)
    requires LastOfAll(front, h) && SectionIs(front, h, section)
    ensures SectionIs(front + [Assign(k, v)], h, section[k := v])
  {
    var l := Assign(k, v);
    var lines := front + [l];
    assert forall i {:trigger front[i]} :: 0 <= i < |front| ==> lines[i] == front[i];
    var n := |front|;
    assert Under(lines, h, n);
    assert forall i: nat :: Under(front, h, i) <==> (Under(lines, h, i) && i < n);
    assert LastValue(lines, h, k, n);
    forall q, i: nat | q != k
      ensures LastValue(front, h, q, i) <==> LastValue(lines, h, q, i)
    {
    }
    forall i: nat | LastValue(lines, h, k, i)
      ensures i == n
    {
    }
    forall q | q in section && q != k
      ensures exists i: nat :: LastValue(lines, h, q, i)
    {
      var i: nat :| LastValue(front, h, q, i);
      assert LastValue(lines, h, q, i);
    }
  }

  /** The last-wins reading leaves nothing open. */
  lemma LastWinsDetermines(lines: seq<Line>, st1: State, st2: State)
    requires LastWins(lines, st1) && LastWins(lines, st2)
    ensures st1 == st2
  {
    hide LastHeader, LastOfAll, SectionIs;
    forall s
      ensures s in st1.doc <==> s in st2.doc
      ensures s in st1.doc ==> st1.doc[s] == st2.doc[s]
    {
      if s in st1.doc || s in st2.doc {
        var h: nat :| LastHeader(lines, s, h);
        SectionDetermined(lines, h, st1.doc[s], st2.doc[s]);
      }
    }
    assert st1.doc == st2.doc;
    assert st1.current == st2.current;
  }

  lemma SectionDetermined(lines: seq<Line>, h: nat, a: Section, b: Section)
    requires SectionIs(lines, h, a) && SectionIs(lines, h, b)
    ensures a == b
  {
  }

  ghost predicate HasHeader(lines: seq<Line>) {
    exists h :: 0 <= h < |lines| && lines[h].Header?
  }

  /** No header underflows, and every key line comes after some header. */
  ghost predicate Defined(lines: seq<Line>) {
    && (forall i :: 0 <= i < |lines| ==> !lines[i].Undefined?)
    && (forall i :: 0 <= i < |lines| && lines[i].Assign? ==> HasHeader(lines[..i]))
  }

  lemma HasHeaderNext(front: seq<Line>, l: Line)
    ensures HasHeader(front + [l]) <==> HasHeader(front) || l.Header?
  {
    var lines := front + [l];
    assert lines[|front|] == l;
    if h :| 0 <= h < |front| && front[h].Header? {
      assert lines[h].Header?;
    }
  }

  lemma DefinedNext(front: seq<Line>, l: Line)
    ensures Defined(front + [l]) <==> Defined(front) && !l.Undefined? && (l.Assign? ==> HasHeader(front))
  {
    hide HasHeader;
    var lines := front + [l];
    assert lines[|front|] == l && lines[..|front|] == front;
    assert forall i {:trigger front[i]} :: 0 <= i < |front| ==> lines[i] == front[i] && lines[..i] == front[..i];
    if Defined(lines) {
      forall i | 0 <= i < |front| && front[i].Assign?
        ensures HasHeader(front[..i])
      {
        assert lines[i].Assign?;
      }
      assert forall i :: 0 <= i < |front| ==> !front[i].Undefined?;
    }
  }

  /** A document has a meaning exactly when it is defined; a section is then current when there was a header. */
  lemma {:induction false} MeaningDefined(lines: seq<Line>)
    ensures Meaning(EMPTY, lines).Some? <==> Defined(lines)
    ensures Meaning(EMPTY, lines).Some? ==> (Meaning(EMPTY, lines).value.current.Some? <==> HasHeader(lines))
  {
    if lines == [] {
    } else {
      var front, l := lines[..|lines| - 1], lines[|lines| - 1];
      assert Meaning(EMPTY, lines)
          == if Meaning(EMPTY, front).None? then None else Step(Meaning(EMPTY, front).value, l);
      assert lines == front + [l];
      hide Meaning, Defined, HasHeader;
      MeaningDefined(front);
      HasHeaderNext(front, l);
      DefinedNext(front, l);
    }
  }
}
