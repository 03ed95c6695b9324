/** The INI object: section names mapped to heap-allocated key maps, and a current one. */
module Ini {
  import opened IniText
  import opened IniPrint
  import opened IniMerge
  import opened IniStream
  import opened IniSaved

  /** The input stream parse reads from. */
  class InputStream {
    const text: string
    var pos: nat
    var eof: bool
    var fail: bool

    ghost predicate Valid()
      reads this
    {
      pos <= |text|
    }

    constructor (t: string)
      ensures Valid() && text == t && pos == 0 && !eof && !fail
    {
      text, pos, eof, fail := t, 0, false, false;
    }

    ghost function Now(): Stream
      reads this
    {
      Stream(pos, eof, fail)
    }

    /** std::istream::getline into a buffer of `size` characters. */
    method Getline(size: nat) returns (line: string)
      requires Valid() && size >= 1
      modifies this
      ensures Valid() && (line, Now()) == IniStream.Getline(text, old(Now()), size)
    {
      line := "";
      if eof || fail {
        fail := true;
        return;
      }
      ghost var rest := text[pos..];
      ghost var start := pos;
      while pos < |text| && text[pos] != '\n' && |line| < size - 1
        invariant start <= pos <= |text| && |line| <= size - 1
        invariant line == rest[..pos - start] && '\n' !in line && !eof && !fail
      {
        line := line + [text[pos]];
        pos := pos + 1;
      }
      ghost var i := pos - start;
      if pos == |text| {
        FindFirst(rest, '\n', i);
        assert rest[..i] == rest;
        eof := true;
        fail := line == "";
      } else if text[pos] == '\n' {
        FindFirst(rest, '\n', i);
        pos := pos + 1;
      } else {
        FindBeyond(rest, '\n', i);
        fail := true;
      }
    }
  }

  /** The stream after n turns of parse's loop; with a line too long for getline, never at its end. */
  method Turns(file: InputStream, n: nat)
    requires file.Valid() && file.Now() == FRESH
    modifies file
    ensures file.Valid() && file.Now() == After(file.text, n)
    ensures !Short(Split(file.text)) ==> !file.eof
  {
    for k := 0 to n
      invariant file.Valid() && file.Now() == After(file.text, k)
    {
      var _ := file.Getline(BUFFER_SIZE);
    }
    if !Short(Split(file.text)) {
      NeverEnds(file.text, n);
    }
  }

  lemma FindBeyond(s: string, c: char, i: nat)
    requires i < |s| && c !in s[..i] && s[i] != c
    ensures Find(s, c) > i
  {
    FindStops(s, c);
    assert forall j {:trigger s[j]} :: 0 <= j < i ==> s[j] == s[..i][j];
  }

  // ---- Reading one line --------------------------------------------------------

  lemma SkipCharAt(s: string, i: nat, c: char)
    requires i <= |s|
    ensures SkipChar(s[i..], c) == if i < |s| && s[i] == c then SkipChar(s[i + 1..], c) else s[i..]
  {
  }

  lemma SkipSpacesAt(s: string, i: nat)
    requires i <= |s|
    ensures SkipSpaces(s[i..]) == if i < |s| && IsSpace(s[i]) then SkipSpaces(s[i + 1..]) else s[i..]
  {
  }

  /** The token at the front of s, and what is left behind its delimiter. */
  function Token(s: string, delim: char): (Option<string>, string) {
    var t := SkipChar(s, delim);
    var i := Find(t, delim);
    if t == "" then (None, "") else (Some(t[..i]), if i == |t| then "" else t[i + 1..])
  }

  lemma NoToken(s: string, from: nat, delim: char)
    requires from <= |s| && SkipChar(s[from..], delim) == s[|s|..]
    ensures Token(s[from..], delim) == (None, "")
  {
  }

  lemma TokenFound(s: string, from: nat, start: nat, end: nat, delim: char)
    requires from <= start < |s| && start <= end <= |s| && SkipChar(s[from..], delim) == s[start..]
    requires (forall j :: start <= j < end ==> s[j] != delim) && (end < |s| ==> s[end] == delim)
    ensures Token(s[from..], delim) == (Some(s[start..end]), s[if end == |s| then |s| else end + 1..])
  {
    var t, i := s[start..], end - start;
    assert t[..i] == s[start..end];
    assert if end < |s| then t[i + 1..] == s[end + 1..] else s[end..] == "";
    FindFirst(t, delim, i);
  }

  /** One strtok call on s from `from`: skip delimiters, take the token, stop behind its delimiter. */
  method Strtok(s: string, from: nat, delim: char) returns (token: Option<string>, next: nat)
    requires from <= |s|
    ensures next <= |s| && (token, s[next..]) == Token(s[from..], delim)
  {
    hide SkipChar, Find, Token;
    var start := from;
    while start < |s| && s[start] == delim
      invariant from <= start <= |s|
      invariant SkipChar(s[from..], delim) == SkipChar(s[start..], delim)
    {
      SkipCharAt(s, start, delim);
      start := start + 1;
    }
    SkipCharAt(s, start, delim);
    if start == |s| {
      NoToken(s, from, delim);
      return None, |s|;
    }
    var end := start;
    while end < |s| && s[end] != delim
      invariant start <= end <= |s| && forall j :: start <= j < end ==> s[j] != delim
    {
      end := end + 1;
    }
    TokenFound(s, from, start, end, delim);
    token := Some(s[start..end]);
    next := if end == |s| then |s| else end + 1;
  }

  /** The body of parse's loop, up to what it does with the line. */
  method ReadLine(raw: string) returns (l: Line)
    requires '\n' !in raw
    ensures l == Interpret(raw)
  {
    hide Tokens, CString, Find, TrimRight;
    var line := CString(raw);
    CStringWithin(raw);
    if line == "" || IsComment(line) {
      return Skip;
    }
    if line[0] == '[' {
      var length := |line| - 2;
      assert line[..length + 2] == line;
      while IsSpace(line[length + 1])
        invariant -1 <= length <= |line| - 2
        invariant TrimRight(line) == TrimRight(line[..length + 2])
        decreases length
      {
        TrimAt(line, length + 2);
        length := length - 1;
      }
      TrimAt(line, length + 2);
      if length < 0 {
        return Undefined;
      }
      l := Header(line[1..length + 1]);
    } else {
      l := ReadKey(line);
    }
  }

  lemma TrimAt(s: string, n: nat)
    requires n <= |s|
    ensures TrimRight(s[..n]) == if n > 0 && IsSpace(s[n - 1]) then TrimRight(s[..n - 1]) else s[..n]
  {
  }

  lemma CStringWithin(raw: string)
    ensures forall x :: x in CString(raw) ==> x in raw
  {
  }

  method ReadKey(line: string) returns (l: Line)
    requires '\n' !in line
    ensures var (k, v) := Tokens(line);
            l == if k == "" || v == "" then Skip else Assign(SkipSpaces(k), v)
  {
    hide SkipSpaces, Token, Tokens, SkipChar, Find;
    assert line[0..] == line;
    var skey, next := Strtok(line, 0, '=');
    var svalue, _ := Strtok(line, next, '\n');
    NoNewline(line[next..]);
    FirstToken(line);
    if skey.Some? && svalue.Some? {
      var index := 0;
      while index < |skey.value| && IsSpace(skey.value[index])
        invariant 0 <= index <= |skey.value|
        invariant SkipSpaces(skey.value[0..]) == SkipSpaces(skey.value[index..])
      {
        SkipSpacesAt(skey.value, index);
        index := index + 1;
      }
      SkipSpacesAt(skey.value, index);
      assert skey.value[0..] == skey.value;
      l := Assign(skey.value[index..], svalue.value);
    } else {
      l := Skip;
    }
  }

  lemma FirstToken(line: string)
    ensures var (token, rest) := Token(line, '=');
            Tokens(line) == (if token.Some? then token.value else "", rest) && token != Some("")
  {
    SkipCharIsSuffix(line, '=');
    FindStops(SkipChar(line, '='), '=');
  }

  /** With no newline in it, the second strtok takes all the rest. */
  lemma NoNewline(t: string)
    requires '\n' !in t
    ensures Token(t, '\n').0 == if t == "" then None else Some(t)
  {
    FindFirst(t, '\n', |t|);
    assert t[..|t|] == t;
  }

  // ---- The object ----------------------------------------------------------------

  /** keys_t, on the heap. */
  class Keys {
    var entries: Section

    constructor ()
      ensures entries == map[]
    {
      entries := map[];
    }

    constructor Copy(other: Keys)
      ensures entries == other.entries
    {
      entries := other.entries;
    }
  }

  /** The headers among the lines that name a section which is there already. */
  function Repeats(names: set<string>, lines: seq<Line>): nat {
    if lines == [] then 0
    else
      var front, l := lines[..|lines| - 1], lines[|lines| - 1];
      Repeats(names, front) + if l.Header? && (l.name in names || l in front) then 1 else 0
  }

  class INI {
    var sections: map<string, Keys>
    var current: Keys?

    /** The section whose map is current. */
    ghost var currentName: Option<string>

    /** The key maps this object has allocated and not deleted. */
    ghost var live: set<Keys>

    ghost predicate Owned()
      reads `sections, `live
    {
      && (forall s, t :: s in sections && t in sections && s != t ==> sections[s] != sections[t])
      && sections.Values <= live
    }

    /** No two sections share a key map, and the current map is none or one of theirs. */
    ghost predicate Valid()
      reads this
    {
      && Owned()
      && (current == null <==> currentName == None)
      && (current != null ==> currentName.value in sections && sections[currentName.value] == current)
    }

    ghost function Contents(): Document
      reads `sections, sections.Values
    {
      map s | s in sections :: sections[s].entries
    }

    ghost function Now(): (st: State)
      requires Valid()
      reads this, sections.Values
      ensures Sound(st)
    {
      State(Contents(), currentName)
    }

    /** Maps that are neither reachable nor deleted. */
    ghost function Leaked(): set<Keys>
      reads `sections, `live
    {
      live - sections.Values
    }

    constructor ()
      ensures Valid() && Now() == EMPTY && live == {}
    {
      sections, current, currentName, live := map[], null, None, {};
    }

    /** `sections[section] = keys`, for a new map; a map the section had before is forgotten, not deleted. */
    method Store(section: string, keys: Keys)
      requires Owned() && keys !in live
      modifies `sections, `live
      ensures Owned() && sections == old(sections)[section := keys] && live == old(live) + {keys}
      ensures Contents() == old(Contents())[section := keys.entries]
      ensures Leaked() == old(Leaked()) + if section in old(sections) then {old(sections)[section]} else {}
    {
      StoreLeaks(sections, live, section, keys);
      sections := sections[section := keys];
      live := live + {keys};
      assert forall k :: k in sections.Values ==> k == keys || k in old(sections.Values);
    }

    lemma StoreLeaks(before: map<string, Keys>, alive: set<Keys>, section: string, keys: Keys)
      requires forall s, t :: s in before && t in before && s != t ==> before[s] != before[t]
      requires before.Values <= alive && keys !in alive
      ensures (alive + {keys}) - before[section := keys].Values
           == alive - before.Values + if section in before then {before[section]} else {}
    {
      var after := before[section := keys];
      var lost := if section in before then {before[section]} else {};
      forall k
        ensures k in after.Values <==> k == keys || (k in before.Values && k !in lost)
      {
        if k in before.Values && k !in lost {
          var s :| s in before && before[s] == k;
          assert after[s] == k;
        }
        assert after[section] == keys;
      }
    }

    /** A section gets a new, empty map. */
    method StoreEmpty(section: string) returns (keys: Keys)
      requires Owned()
      modifies `sections, `live
      ensures Owned() && fresh(keys) && keys.entries == map[]
      ensures sections == old(sections)[section := keys] && live == old(live) + {keys}
      ensures Contents() == old(Contents())[section := map[]]
      ensures Leaked() == old(Leaked()) + if section in old(sections) then {old(sections)[section]} else {}
    {
      hide Contents, Leaked, Owned;
      keys := new Keys();
      Store(section, keys);
    }

    /** operator[] */
    method Bracket(section: string) returns (keys: Keys)
      requires Valid()
      modifies this
      ensures Valid() && section in sections && keys == sections[section] && currentName == old(currentName)
      ensures Contents() == if section in old(sections) then old(Contents()) else old(Contents())[section := map[]]
      ensures Leaked() == old(Leaked()) && fresh(live - old(live))
    {
      if section !in sections {
        var created := StoreEmpty(section);
      }
      keys := sections[section];
    }

    method Create(section: string) returns (created: bool)
      requires Valid()
      modifies this
      ensures Valid() && created == (section !in old(sections)) && currentName == Some(section)
      ensures Contents() == if created then old(Contents())[section := map[]] else old(Contents())
      ensures Leaked() == old(Leaked()) && fresh(live - old(live))
    {
      hide Contents, Leaked, Owned;
      var found := Select(section);
      if found {
        return false;
      }
      current := StoreEmpty(section);
      currentName := Some(section);
      created := true;
    }

    method Select(section: string) returns (found: bool)
      requires Valid()
      modifies `current, `currentName
      ensures Valid() && found == (section in sections) && Contents() == old(Contents())
      ensures currentName == if found then Some(section) else old(currentName)
    {
      if section !in sections {
        return false;
      }
      current := sections[section];
      currentName := Some(section);
      found := true;
    }

    /** Assigns under the selected section, or does nothing without one. */
    method Set(key: string, value: string) returns (done: bool)
      requires Valid()
      modifies current
      ensures Valid() && done == old(currentName).Some?
      ensures done ==> Some(Now()) == Step(old(Now()), Assign(key, value))
      ensures !done ==> Now() == old(Now())
      ensures Leaked() == old(Leaked())
    {
      if current == null {
        return false;
      }
      ghost var c := currentName.value;
      ghost var before := Contents();
      current.entries := current.entries[key := value];
      assert Contents() == before[c := before[c][key := value]];
      done := true;
    }

    /** The value under the selected section; without one, the source dereferences null before it tests for it. */
    method Get(key: string, def: string) returns (value: string)
      requires Valid() && currentName.Some?
      ensures currentName.value in Contents()
      ensures var section := Contents()[currentName.value];
              value == if key in section then section[key] else def
    {
      value := if key in current.entries then current.entries[key] else def;
    }

    method GetIn(section: string, key: string, def: string) returns (value: string)
      requires Valid()
      modifies `current, `currentName
      ensures Valid() && Contents() == old(Contents())
      ensures value == if section in Contents() && key in Contents()[section] then Contents()[section][key] else def
      ensures currentName == if section in sections then Some(section) else old(currentName)
    {
      var found := Select(section);
      if !found {
        return def;
      }
      value := Get(key, def);
    }

    /** A header: a new map becomes current and takes its section's place. */
    method Open(section: string)
      requires Valid()
      modifies this
      ensures Valid() && Some(Now()) == Step(old(Now()), Header(section))
      ensures sections.Keys == old(sections.Keys) + {section} && fresh(current)
      ensures forall s :: s in sections && s != section ==> s in old(sections) && sections[s] == old(sections)[s]
      ensures Leaked() == old(Leaked()) + if section in old(sections) then {old(sections)[section]} else {}
    {
      hide Contents, Leaked, Owned;
      current := StoreEmpty(section);
      currentName := Some(section);
    }

    /** The same, counting: a section that was there already loses its map. */
    method OpenCounted(section: string)
      requires Valid()
      modifies this
      ensures Valid() && Some(Now()) == Step(old(Now()), Header(section))
      ensures sections.Keys == old(sections.Keys) + {section} && fresh(current)
      ensures forall s :: s in sections && s != section ==> s in old(sections) && sections[s] == old(sections)[s]
      ensures |Leaked()| == |old(Leaked())| + if section in old(sections) then 1 else 0
    {
      hide Leaked, Owned, Contents, Step;
      LostNotLeaked(section);
      Open(section);
      OneMore(old(Leaked()), old(sections), section);
    }

    lemma LostNotLeaked(section: string)
      ensures section in sections ==> sections[section] !in Leaked()
    {
    }

    lemma OneMore(leaked: set<Keys>, before: map<string, Keys>, section: string)
      requires section in before ==> before[section] !in leaked
      ensures |leaked + if section in before then {before[section]} else {}|
           == |leaked| + if section in before then 1 else 0
    {
    }

    /** One line of the file; undefined lines are the caller's to avoid. */
    method TakeLine(l: Line)
      requires Valid() && Step(Now(), l).Some?
      modifies this, current
      ensures Valid() && Some(Now()) == Step(old(Now()), l)
      ensures sections.Keys == old(sections.Keys) + if l.Header? then {l.name} else {}
      ensures current == old(current) || fresh(current)
      ensures forall s :: s in sections && s in old(sections) && l != Header(s) ==> sections[s] == old(sections)[s]
      ensures |Leaked()| == |old(Leaked())| + if l.Header? && l.name in old(sections) then 1 else 0
    {
      hide Leaked, Owned, Contents;
      match l
      case Skip =>
      case Header(s) =>
        OpenCounted(s);
      case Assign(k, v) =>
        var _ := Set(k, v);
      case Undefined =>
    }

    /**
     Reads a whole file. Where plain char is unsigned, a first line that starts
     with the byte 0xEF ends the parse at once; where it is signed the test
     never succeeds.
     */
    method Parse(file: InputStream, charIsUnsigned: bool)
      requires Valid() && file.Valid() && file.Now() == FRESH && Returns(file.text, charIsUnsigned)
      requires Meaning(Now(), Considered(file.text, charIsUnsigned)).Some?
      modifies this, current, file
      ensures Valid()
      ensures Some(Now()) == Meaning(old(Now()), Considered(file.text, charIsUnsigned))
      ensures |Leaked()| == |old(Leaked())| + Repeats(old(sections.Keys), Considered(file.text, charIsUnsigned))
    {
      hide Meaning, Interpret, Split, Short, Repeats, HeaderNames, Progress, At, Valid, Owned, Contents, Leaked;
      ghost var raws := Split(file.text);
      ghost var lines := Interpreted(raws);
      ghost var start, names, leaks := Now(), sections.Keys, |Leaked()|;
      ghost var k := 0;
      ProgressStart(lines);
      ReadingStarts(file.text, charIsUnsigned);
      var first := true;
      while !file.eof
        invariant Valid() && k <= |raws| && first == (k == 0)
        invariant current == old(current) || fresh(current)
        invariant Progress(start, names, leaks, lines, k)
        invariant file.Valid() && (first ==> file.Now() == FRESH)
        invariant Abandoned(file.text, charIsUnsigned) ==> first
        invariant !Abandoned(file.text, charIsUnsigned) ==> At(file.text, file.Now(), raws, k) && Short(raws)
        decreases |raws| - k
      {
        ghost var before := file.Now();
        var line := file.Getline(BUFFER_SIZE);
        OneLine(file.text, before, BUFFER_SIZE);
        if first {
          first := false;
          FirstCharacter(file.text, '\U{EF}');
          if charIsUnsigned && line != "" && line[0] == '\U{EF}' {
            assert lines[..0] == [];
            ProgressMeans(start, names, leaks, lines, 0);
            return;
          }
        }
        Delivers(file.text, before, raws, k);
        var l := ReadLine(line);
        TakeNext(start, names, leaks, lines, k, l);
        k := k + 1;
      }
      assert k == |raws| by { ReadingEnds(file.text, file.Now(), raws, k); }
      assert lines[..k] == lines;
      ProgressMeans(start, names, leaks, lines, k);
    }

    /** The first k lines have had their effect. */
    ghost predicate Progress(start: State, names: set<string>, leaks: nat, lines: seq<Line>, k: nat)
      requires Valid() && Sound(start)
      reads this, sections.Values
    {
      && k <= |lines| && Meaning(start, lines[..k]) == Some(Now())
      && sections.Keys == names + HeaderNames(lines[..k])
      && |Leaked()| == leaks + Repeats(names, lines[..k])
    }

    lemma ProgressStart(lines: seq<Line>)
      requires Valid()
      ensures Progress(Now(), sections.Keys, |Leaked()|, lines, 0)
    {
    }

    lemma ProgressMeans(start: State, names: set<string>, leaks: nat, lines: seq<Line>, k: nat)
      requires Valid() && Sound(start) && Progress(start, names, leaks, lines, k)
      ensures k <= |lines| && Meaning(start, lines[..k]) == Some(Now())
      ensures |Leaked()| == leaks + Repeats(names, lines[..k])
    {
    }

    method TakeNext(ghost start: State, ghost names: set<string>, ghost leaks: nat,
                    ghost lines: seq<Line>, ghost k: nat, l: Line)
      requires Valid() && Sound(start) && Meaning(start, lines).Some?
      requires Progress(start, names, leaks, lines, k) && k < |lines| && l == lines[k]
      modifies this, current
      ensures Valid() && Progress(start, names, leaks, lines, k + 1)
      ensures current == old(current) || fresh(current)
    {
      hide Meaning, Repeats, HeaderNames, Contents, Leaked, Owned, Step;
      NextLine(start, names, lines, k);
      TakeLine(l);
    }

    /** Deletes every key map reachable from the object, each once, and forgets them; leaked maps stay. */
    method Clear(order: seq<string>)
      requires Valid() && NoDuplicates(order) && Elements(order) == sections.Keys
      modifies this
      ensures Valid() && Now() == EMPTY && live == old(Leaked())
    {
      ghost var alive, maps := live, sections.Values;
      var i := 0;
      while i < |order|
        invariant 0 <= i <= |order|
        invariant live == alive - Deleted(order[..i])
        modifies `live
      {
        assert order[i] in Elements(order);
        forall k | k in Deleted(order[..i])
          ensures k != sections[order[i]]
        {
          var s :| s in order[..i] && s in sections && sections[s] == k;
          var j :| 0 <= j < i && order[j] == s;
        }
        Delete(sections[order[i]]);
        assert order[..i + 1] == order[..i] + [order[i]];
        assert Deleted(order[..i + 1]) == Deleted(order[..i]) + {sections[order[i]]};
        i := i + 1;
      }
      assert Deleted(order[..i]) == maps by {
        assert order[..i] == order;
        forall s | s in sections
          ensures sections[s] in Deleted(order)
        {
          assert s in Elements(order);
        }
      }
      current, currentName := null, None;
      sections := map[];
    }

    /** delete: each map only once. */
    method Delete(keys: Keys)
      requires keys in live
      modifies `live
      ensures live == old(live) - {keys}
    {
      live := live - {keys};
    }

    ghost function Deleted(names: seq<string>): set<Keys>
      reads this
    {
      set s | s in names && s in sections :: sections[s]
    }

    /**
     Inserts another object's sections and keys. No key map becomes shared, and
     the last section that both had is selected.
     */
    method Merge(other: INI, retain: bool, order: seq<Entry>)
      requires Valid() && other.Valid() && Enumerates(order, other.Contents())
      requires other == this || other.sections.Values !! sections.Values
      modifies this, sections.Values
      ensures Valid() && Contents() == IniMerge.Merge(old(Contents()), old(other.Contents()), retain)
      ensures currentName == LastFound(order, old(sections.Keys), old(currentName)) && Leaked() == old(Leaked())
      ensures other.Valid() && other.Contents() == if other == this then Contents() else old(other.Contents())
      ensures other == this || other.sections.Values !! sections.Values
    {
      hide Owned, Contents, IniMerge.Merge, Upto, Leaked, Enumerates, LastFound, Merged;
      ghost var a, b := Contents(), other.Contents();
      ghost var names, maps, chosen := sections.Keys, sections.Values, currentName;
      var i := 0;
      MergeStart(other, order, retain);
      while i < |order|
        invariant 0 <= i <= |order|
        invariant Valid() && other.Valid() && fresh(sections.Values - maps)
        invariant other == this || other.sections.Values !! sections.Values
        invariant Leaked() == old(Leaked())
        invariant Merged(other, a, b, names, chosen, order, i, retain)
      {
        MergeNext(other, a, b, names, chosen, order, i, retain);
        i := i + 1;
      }
      MergeEnd(other, a, b, names, chosen, order, retain);
    }

    /** The first i sections of the other object have been merged. */
    ghost predicate Merged(other: INI, a: Document, b: Document, names: set<string>, chosen: Option<string>,
                           order: seq<Entry>, i: nat, retain: bool)
      reads this, sections.Values, other, other.sections.Values
    {
      && i <= |order| && other.Contents() == b && names == a.Keys && (other == this ==> a == b)
      && Contents() == IniMerge.Merge(a, Upto(b, order[..i]), retain)
      && currentName == LastFound(order[..i], names, chosen)
    }

    lemma MergeStart(other: INI, order: seq<Entry>, retain: bool)
      ensures Merged(other, Contents(), other.Contents(), sections.Keys, currentName, order, 0, retain)
    {
      assert Upto(other.Contents(), order[..0]) == map[];
    }

    lemma MergeEnd(other: INI, a: Document, b: Document, names: set<string>, chosen: Option<string>,
                   order: seq<Entry>, retain: bool)
      requires Enumerates(order, b) && Merged(other, a, b, names, chosen, order, |order|, retain)
      ensures Contents() == IniMerge.Merge(a, b, retain) && other.Contents() == b
      ensures currentName == LastFound(order, names, chosen)
    {
      hide Contents, IniMerge.Merge, LastFound, Upto, Enumerates;
      assert order[..|order|] == order;
      UptoAll(b, order);
    }

    method MergeNext(other: INI, ghost a: Document, ghost b: Document, ghost names: set<string>,
                     ghost chosen: Option<string>, order: seq<Entry>, i: nat, retain: bool)
      requires Valid() && other.Valid() && Enumerates(order, b) && i < |order|
      requires Merged(other, a, b, names, chosen, order, i, retain)
      requires other == this || other.sections.Values !! sections.Values
      modifies this, sections.Values
      ensures Valid() && other.Valid() && fresh(sections.Values - old(sections.Values))
      ensures other == this || other.sections.Values !! sections.Values
      ensures Leaked() == old(Leaked()) && Merged(other, a, b, names, chosen, order, i + 1, retain)
    {
      hide Owned, Contents, IniMerge.Merge, Upto, Leaked, Enumerates, LastFound;
      other.ContentsKeys();
      ContentsKeys();
      MergeStep(a, b, names, chosen, order, i, retain);
      MergeEntry(other, order[i], retain);
      if other == this {
        MergeWithin(a, order[..i + 1], retain);
      }
    }

    lemma ContentsKeys()
      ensures Contents().Keys == sections.Keys
    {
    }

    /** The body of merge's loop. */
    method MergeEntry(other: INI, e: Entry, retain: bool)
      requires Valid() && other.Valid() && e.name in other.Contents()
      requires NoDuplicates(e.keys) && Elements(e.keys) == other.Contents()[e.name].Keys
      requires other == this || other.sections.Values !! sections.Values
      modifies this, sections.Values
      ensures Valid() && other.Valid() && fresh(sections.Values - old(sections.Values))
      ensures Contents() == old(Contents())[e.name :=
        if e.name in old(Contents())
        then MergeSection(old(Contents())[e.name], old(other.Contents())[e.name], retain)
        else old(other.Contents())[e.name]]
      ensures currentName == if e.name in old(Contents()) then Some(e.name) else old(currentName)
      ensures other == this || (other.sections.Values !! sections.Values && other.Contents() == old(other.Contents()))
      ensures Leaked() == old(Leaked())
    {
      hide MergeSection, Owned, Contents;
      ContentsKeys();
      other.ContentsKeys();
      var found := Select(e.name);
      if !found {
        CopySection(e.name, other);
      } else {
        MergeCurrent(other, e, retain);
      }
    }

    /** A section that is missing here is copied, map and all. */
    method CopySection(name: string, other: INI)
      requires Valid() && other.Valid() && name !in sections && name in other.sections && other != this
      requires other.sections.Values !! sections.Values && name in other.Contents()
      modifies this
      ensures Valid() && fresh(sections.Values - old(sections.Values))
      ensures Contents() == old(Contents())[name := other.Contents()[name]]
      ensures other.sections.Values !! sections.Values && other.Contents() == old(other.Contents())
      ensures currentName == old(currentName) && Leaked() == old(Leaked())
    {
      hide Leaked;
      assert other.Contents()[name] == other.sections[name].entries;
      hide Contents, Owned;
      var keys := new Keys.Copy(other.sections[name]);
      Store(name, keys);
      assert forall k :: k in sections.Values ==> k == keys || k in old(sections.Values);
    }

    /** A section that both have is merged key by key into the current map. */
    method MergeCurrent(other: INI, e: Entry, retain: bool)
      requires Valid() && other.Valid() && currentName == Some(e.name) && e.name in Contents()
      requires e.name in other.Contents() && NoDuplicates(e.keys) && Elements(e.keys) == other.Contents()[e.name].Keys
      requires other == this || other.sections.Values !! sections.Values
      modifies sections.Values
      ensures Contents() == old(Contents())[e.name :=
        MergeSection(old(Contents())[e.name], old(other.Contents())[e.name], retain)]
      ensures other == this || other.Contents() == old(other.Contents())
    {
      hide MergeSection;
      ghost var before, others := Contents(), other.Contents();
      MergeKeys(current, other.sections[e.name], e.keys, retain);
      assert Contents() == before[e.name := sections[e.name].entries];
      assert other != this ==> other.Contents() == others;
    }

    /** Writes every non-empty section and its keys, in the iteration order of the hash maps. */
    method Save(order: seq<Entry>) returns (file: string)
      requires Valid() && Enumerates(order, Contents())
      ensures Listed(order, Contents()) && file == Text(DocRaws(Contents(), order))
      ensures Printable(Contents()) ==> WrittenOut(file, Contents())
    {
      hide Text, DocRaws, EntryRaws, IniPrint.Printed, Owned, Printable, WrittenOut;
      ghost var doc := Contents();
      file := "";
      var i := 0;
      SaveStart(doc, order);
      while i < |order|
        invariant 0 <= i <= |order|
        invariant file == Text(DocRaws(doc, order[..i]))
      {
        var e := order[i];
        assert e in order && e.name in doc;
        SaveNext(doc, order, i);
        var keys := sections[e.name];
        if keys.entries != map[] {
          file := file + IniPrint.Printed(HeaderRaw(e.name));
          file := SaveKeys(file, keys.entries, e.keys, DocRaws(doc, order[..i]) + [HeaderRaw(e.name)]);
        }
        i := i + 1;
      }
      assert order[..i] == order;
      if Printable(doc) {
        SavedIsWrittenOut(doc, order);
      }
    }
  }

  /** The inner loop of save. */
  method SaveKeys(written: string, section: Section, keys: seq<string>, ghost raws: seq<string>) returns (file: string)
    requires Elements(keys) == section.Keys && written == Text(raws)
    ensures file == Text(raws + KeyRaws(section, keys))
  {
    hide Text, IniPrint.Printed;
    file := written;
    var j := 0;
    assert raws + KeyRaws(section, keys[..0]) == raws;
    while j < |keys|
      invariant 0 <= j <= |keys|
      invariant file == Text(raws + KeyRaws(section, keys[..j]))
    {
      var k := keys[j];
      assert k in Elements(keys);
      assert keys[..j + 1][..j] == keys[..j];
      assert raws + KeyRaws(section, keys[..j + 1]) == raws + KeyRaws(section, keys[..j]) + [KeyRaw(k, section[k])];
      TextNext(raws + KeyRaws(section, keys[..j]), KeyRaw(k, section[k]));
      file := file + IniPrint.Printed(KeyRaw(k, section[k]));
      j := j + 1;
    }
    assert keys[..j] == keys;
  }

  lemma SaveStart(doc: Document, order: seq<Entry>)
    requires Enumerates(order, doc)
    ensures forall i :: 0 <= i <= |order| ==> Listed(order[..i], doc)
    ensures Text(DocRaws(doc, order[..0])) == ""
  {
  }

  lemma SaveNext(doc: Document, order: seq<Entry>, i: nat)
    requires i < |order| && Listed(order[..i], doc) && Listed(order[..i + 1], doc)
    ensures var e, raws := order[i], DocRaws(doc, order[..i]);
            e.name in doc &&
            if doc[e.name] == map[] then DocRaws(doc, order[..i + 1]) == raws
            else && DocRaws(doc, order[..i + 1]) == raws + [HeaderRaw(e.name)] + KeyRaws(doc[e.name], e.keys)
                 && Text(raws + [HeaderRaw(e.name)]) == Text(raws) + IniPrint.Printed(HeaderRaw(e.name))
  {
    hide Text, IniPrint.Printed, KeyRaws;
    assert order[..i + 1][..i] == order[..i];
    assert order[i] == order[..i + 1][i];
    TextNext(DocRaws(doc, order[..i]), HeaderRaw(order[i].name));
  }

  /** The section merge leaves selected: the last of the other object's that was there already. */
  function LastFound(order: seq<Entry>, names: set<string>, chosen: Option<string>): Option<string> {
    if order == [] then chosen
    else if order[|order| - 1].name in names then Some(order[|order| - 1].name)
    else LastFound(order[..|order| - 1], names, chosen)
  }

  /** One more section of the other document. */
  lemma MergeStep(a: Document, b: Document, names: set<string>, chosen: Option<string>,
                  order: seq<Entry>, i: nat, retain: bool)
    requires i < |order| && Enumerates(order, b) && names == a.Keys
    ensures var s := order[i].name;
            var m := IniMerge.Merge(a, Upto(b, order[..i]), retain);
            && s in b && NoDuplicates(order[i].keys) && Elements(order[i].keys) == b[s].Keys
            && (s in m <==> s in a)
            && IniMerge.Merge(a, Upto(b, order[..i + 1]), retain)
               == m[s := if s in m then MergeSection(m[s], b[s], retain) else b[s]]
            && LastFound(order[..i + 1], names, chosen)
               == if s in m then Some(s) else LastFound(order[..i], names, chosen)
  {
    hide Upto, MergeSection, IniMerge.Merge;
    assert order[i] in order;
    UptoNext(b, order, i);
    MergePut(a, Upto(b, order[..i]), order[i].name, b[order[i].name], retain);
    assert order[..i + 1][..i] == order[..i];
  }

  /** Merging parts of a document into itself changes nothing. */
  lemma MergeWithin(a: Document, order: seq<Entry>, retain: bool)
    ensures IniMerge.Merge(a, Upto(a, order), retain) == a
  {
    forall s | s in a
      ensures MergeSection(a[s], a[s], retain) == a[s]
    {
    }
  }

  /** The inner loop of merge: one section into another (or into itself). */
  method MergeKeys(mine: Keys, theirs: Keys, keys: seq<string>, retain: bool)
    requires NoDuplicates(keys) && Elements(keys) == theirs.entries.Keys
    modifies mine
    ensures mine.entries == MergeSection(old(mine.entries), old(theirs.entries), retain)
  {
    hide MergeSection, UptoKeys;
    ghost var a, b := mine.entries, theirs.entries;
    var j := 0;
    MergeKeysStart(a, b, keys, retain);
    while j < |keys|
      invariant 0 <= j <= |keys| && theirs.entries == b
      invariant mine.entries == MergeSection(a, UptoKeys(b, keys[..j]), retain)
    {
      var k := keys[j];
      MergeKeysStep(a, b, keys, j, retain);
      if k !in mine.entries {
        mine.entries := mine.entries[k := theirs.entries[k]];
      } else if !retain {
        mine.entries := mine.entries[k := theirs.entries[k]];
      }
      if mine == theirs {
        assert mine.entries == b;
      }
      j := j + 1;
    }
  }

  lemma MergeKeysStart(a: Section, b: Section, keys: seq<string>, retain: bool)
    requires Elements(keys) == b.Keys
    ensures MergeSection(a, UptoKeys(b, keys[..0]), retain) == a
    ensures UptoKeys(b, keys[..|keys|]) == b
  {
  }

  lemma MergeKeysStep(a: Section, b: Section, keys: seq<string>, j: nat, retain: bool)
    requires j < |keys| && NoDuplicates(keys) && Elements(keys) == b.Keys
    ensures var k := keys[j];
            var m := MergeSection(a, UptoKeys(b, keys[..j]), retain);
            && k in b && MergeSection(a, UptoKeys(b, keys[..j + 1]), retain)
                         == if k !in m || !retain then m[k := b[k]] else m
  {
    hide UptoKeys, MergeSection;
    assert keys[j] in Elements(keys);
    UptoKeysNext(b, keys, j);
    MergeSectionPut(a, UptoKeys(b, keys[..j]), keys[j], b[keys[j]], retain);
  }

  function UptoKeys(section: Section, keys: seq<string>): Section {
    map k | k in Elements(keys) && k in section :: section[k]
  }

  lemma UptoKeysNext(section: Section, keys: seq<string>, j: nat)
    requires j < |keys| && NoDuplicates(keys) && keys[j] in section
    ensures keys[j] !in UptoKeys(section, keys[..j])
    ensures UptoKeys(section, keys[..j + 1]) == UptoKeys(section, keys[..j])[keys[j] := section[keys[j]]]
  {
  }

  /** The part of a document that the first entries of an enumeration cover. */
  function Upto(doc: Document, order: seq<Entry>): Document {
    map s | s in Elements(Names(order)) && s in doc :: doc[s]
  }

  lemma UptoAll(doc: Document, order: seq<Entry>)
    requires Enumerates(order, doc)
    ensures Upto(doc, order) == doc
  {
  }

  lemma UptoNext(doc: Document, order: seq<Entry>, i: nat)
    requires i < |order| && Enumerates(order, doc)
    ensures order[i].name !in Upto(doc, order[..i])
    ensures Upto(doc, order[..i + 1]) == Upto(doc, order[..i])[order[i].name := doc[order[i].name]]
  {
    var e := order[i];
    assert e in order;
    NamesNext(order, i);
    hide NoDuplicates, Names;
    assert Elements(Names(order[..i + 1])) == Elements(Names(order[..i])) + {e.name};
  }

  lemma NamesNext(order: seq<Entry>, i: nat)
    requires i < |order| && NoDuplicates(Names(order))
    ensures Names(order[..i + 1]) == Names(order[..i]) + [order[i].name] && order[i].name !in Names(order[..i])
  {
    assert forall j {:trigger Names(order[..i])[j]} :: 0 <= j < i ==>
      Names(order[..i])[j] == Names(order)[j] != Names(order)[i];
  }

  lemma TextNext(raws: seq<string>, raw: string)
    ensures Text(raws + [raw]) == Text(raws) + IniPrint.Printed(raw)
  {
  }

  // ---- The stream while parse reads it -----------------------------------------------

  lemma ReadingStarts(text: string, charIsUnsigned: bool)
    requires Returns(text, charIsUnsigned)
    ensures At(text, FRESH, Split(text), 0)
    ensures !Abandoned(text, charIsUnsigned) ==> Short(Split(text))
  {
    EndsExact(text);
    assert text[0..] == text && Split(text)[0..] == Split(text);
  }

  lemma ReadingEnds(text: string, st: Stream, raws: seq<string>, k: nat)
    requires At(text, st, raws, k) && st.eof
    ensures k == |raws|
  {
  }

  /** The lines parse acts on. */
  function Considered(text: string, charIsUnsigned: bool): seq<Line> {
    if Abandoned(text, charIsUnsigned) then [] else Interpreted(Split(text))
  }

  function HeaderNames(lines: seq<Line>): set<string> {
    set l | l in lines && l.Header? :: l.name
  }

  /** If all the lines have a meaning, so has the next one after the lines before it. */
  lemma NextLine(start: State, names: set<string>, lines: seq<Line>, k: nat)
    requires Sound(start) && k < |lines| && Meaning(start, lines).Some?
    ensures Meaning(start, lines[..k]).Some?
    ensures Meaning(start, lines[..k + 1]) == Step(Meaning(start, lines[..k]).value, lines[k])
    ensures Step(Meaning(start, lines[..k]).value, lines[k]).Some?
    ensures HeaderNames(lines[..k + 1]) == HeaderNames(lines[..k]) + if lines[k].Header? then {lines[k].name} else {}
    ensures Repeats(names, lines[..k + 1]) == Repeats(names, lines[..k])
         + if lines[k].Header? && lines[k].name in names + HeaderNames(lines[..k]) then 1 else 0
  {
    var front := lines[..k + 1];
    assert front[..k] == lines[..k] && front == lines[..k] + [lines[k]];
    assert lines == front + lines[k + 1..];
    MeaningAppend(start, front, lines[k + 1..]);
    if lines[k].Header? {
      assert lines[k] in lines[..k] <==> lines[k].name in HeaderNames(lines[..k]);
    }
  }

  /** A saved text is empty or starts with a header. */
  lemma {:induction false} FirstRaw(doc: Document, order: seq<Entry>)
    requires Listed(order, doc)
    ensures var raws := DocRaws(doc, order);
            raws == [] || (raws[0] != "" && raws[0][0] == '[')
  {
    if order == [] {
    } else {
      FirstRaw(doc, order[..|order| - 1]);
    }
  }

  lemma SavedIsConsidered(doc: Document, order: seq<Entry>, charIsUnsigned: bool)
    requires Listed(order, doc) && Clean(DocRaws(doc, order))
    ensures var text := Text(DocRaws(doc, order));
            Considered(text, charIsUnsigned) == Interpreted(Split(text))
  {
    hide Interpreted, DocRaws, Split;
    var raws := DocRaws(doc, order);
    FirstRaw(doc, order);
    if raws != [] {
      SplitText(raws, "");
      assert Text(raws) + "" == Text(raws);
      assert Split(Text(raws))[0] == raws[0];
      SplitFront(Text(raws));
    }
  }

  lemma SplitFront(text: string)
    ensures Split(text)[0] <= text
  {
  }

  /** Saving an object and parsing the file into a new one, in any iteration order and on any platform. */
  method SaveAndReload(ini: INI, order: seq<Entry>, charIsUnsigned: bool) returns (copy: INI)
    requires ini.Valid() && Enumerates(order, ini.Contents()) && Printable(ini.Contents())
    ensures fresh(copy) && copy.Valid() && copy.Contents() == WithoutEmpty(ini.Contents())
    ensures ini.Contents() == old(ini.Contents())
  {
    hide Printable, Enumerates, Text, DocRaws, Meaning, Returns, Considered, WithoutEmpty, Listed, Interpret;
    hide IniText.Step, INI.Owned, INI.Contents, INI.Leaked;
    ghost var doc := ini.Contents();
    SavedReloads(doc, order, charIsUnsigned);
    var text := ini.Save(order);
    copy := new INI();
    var file := new InputStream(text);
    copy.Parse(file, charIsUnsigned);
    assert ini.Contents() == doc;
  }

  lemma SavedReloads(doc: Document, order: seq<Entry>, charIsUnsigned: bool)
    requires Printable(doc) && Enumerates(order, doc)
    ensures Listed(order, doc)
    ensures var text := Text(DocRaws(doc, order));
            var result := Meaning(EMPTY, Considered(text, charIsUnsigned));
            Returns(text, charIsUnsigned) && result.Some? && result.value.doc == WithoutEmpty(doc)
  {
    hide Meaning, Considered, Split, Text, DocRaws;
    SaveThenParse(doc, order);
    EndsExact(Text(DocRaws(doc, order)));
    DocMeaning(doc, order);
    SavedIsConsidered(doc, order, charIsUnsigned);
  }
}
