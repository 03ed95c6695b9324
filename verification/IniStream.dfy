/**
 The stream that the INI parser reads with getline, on values, and when the
 parser's loop `while (!file.eof())` comes to an end.
 */
module IniStream {
  import opened IniText
  import opened IniPrint

  const BUFFER_SIZE := 1024

  /** The read position and the flags of an input stream over a text. */
  datatype Stream = Stream(pos: nat, eof: bool, fail: bool)

  const FRESH := Stream(0, false, false)

  /** std::istream::getline into a buffer of `size` characters: what it delivers and what it leaves. */
  function Getline(text: string, st: Stream, size: nat): (r: (string, Stream))
    requires st.pos <= |text| && size >= 1
    ensures r.1.pos <= |text|
  {
    if st.eof || st.fail then ("", st.(fail := true))
    else
      var rest := text[st.pos..];
      var i := Find(rest, '\n');
      if i == |rest| && i < size then (rest, Stream(|text|, true, rest == ""))
      else if i < size then (rest[..i], Stream(st.pos + i + 1, false, false))
      else (rest[..size - 1], Stream(st.pos + size - 1, false, true))
  }

  /** The stream after n turns of the parser's loop. */
  function After(text: string, n: nat): (st: Stream)
    ensures st.pos <= |text|
  {
    if n == 0 then FRESH else Getline(text, After(text, n - 1), BUFFER_SIZE).1
  }

  /** Some turn brings the stream to its end. */
  ghost predicate Ends(text: string) {
    exists n: nat :: After(text, n).eof
  }

  /** The loop ends exactly when no line has more than 1023 characters. */
  lemma EndsExact(text: string)
    ensures Ends(text) <==> Short(Split(text))
    ensures Ends(text) <==> forall i :: 0 <= i < |Split(text)| ==> |Split(text)[i]| <= 1023
  {
    if Short(Split(text)) {
      LinesRead(text, |Split(text)|);
    }
    if n: nat :| After(text, n).eof {
      if !Short(Split(text)) {
        NeverEnds(text, n);
      }
    }
  }

  /** With a line of more than 1023 characters, no number of turns reaches the end. */
  lemma {:induction false} NeverEnds(text: string, n: nat)
    requires !Short(Split(text))
    ensures var st := After(text, n);
            !st.eof && (st.fail || !Short(Split(text[st.pos..])))
  {
    if n == 0 {
      assert text[0..] == text;
    } else {
      NeverEnds(text, n - 1);
      Continues(text, After(text, n - 1));
    }
  }

  /** A line that is not the last, and not too long, leaves a stream whose rest is as long-winded as before. */
  lemma Continues(text: string, st: Stream)
    requires st.pos <= |text| && !st.eof && (st.fail || !Short(Split(text[st.pos..])))
    ensures var next := Getline(text, st, BUFFER_SIZE).1;
            !next.eof && (next.fail || !Short(Split(text[next.pos..])))
  {
    hide Split, Find, Short;
    if !st.fail {
      var rest := text[st.pos..];
      ShortSplit(rest);
      if Find(rest, '\n') < |rest| {
        assert text[st.pos + Find(rest, '\n') + 1..] == rest[Find(rest, '\n') + 1..];
      }
    }
  }

  lemma SplitFirst(rest: string)
    ensures var i := Find(rest, '\n');
            Split(rest) == if i == |rest| then [rest] else [rest[..i]] + Split(rest[i + 1..])
  {
    hide Find;
    var i := Find(rest, '\n');
    if i == |rest| {
      assert Split(rest) == [rest];
    } else {
      assert Split(rest) == [rest[..i]] + Split(rest[i + 1..]);
    }
  }

  lemma ShortSplit(rest: string)
    ensures var i := Find(rest, '\n');
            Short(Split(rest)) <==> i <= LINE_MAX && (i < |rest| ==> Short(Split(rest[i + 1..])))
  {
    hide Split, Find;
    var i := Find(rest, '\n');
    SplitFirst(rest);
    if i < |rest| {
      ShortCons(rest[..i], Split(rest[i + 1..]));
    } else {
      assert [rest] + [] == [rest];
      ShortCons(rest, []);
    }
  }

  lemma ShortCons(line: string, later: seq<string>)
    ensures Short([line] + later) <==> |line| <= LINE_MAX && Short(later)
  {
    var lines := [line] + later;
    assert lines[0] == line;
    assert forall k {:trigger later[k]} :: 0 <= k < |later| ==> later[k] == lines[k + 1];
  }

  /** k lines have been read; the stream is at its end exactly when these are all of them. */
  ghost predicate At(text: string, st: Stream, raws: seq<string>, k: nat) {
    && st.pos <= |text| && k <= |raws|
    && if st.eof then k == |raws| else !st.fail && raws[k..] == Split(text[st.pos..])
  }

  /** getline delivers the next line of the text, whole. */
  lemma Delivers(text: string, st: Stream, raws: seq<string>, k: nat)
    requires At(text, st, raws, k) && !st.eof && Short(raws)
    ensures var (line, next) := Getline(text, st, BUFFER_SIZE);
            k < |raws| && line == raws[k] && At(text, next, raws, k + 1)
  {
    var rest := text[st.pos..];
    var i := Find(rest, '\n');
    assert raws[k] == Split(rest)[0] == rest[..i];
    assert raws[k + 1..] == raws[k..][1..];
    if i < |rest| {
      assert text[st.pos + i + 1..] == rest[i + 1..];
    } else {
      assert rest[..i] == rest;
    }
  }

  /** Each of the first turns reads one line; the last line ends the loop. */
  lemma {:induction false} LinesRead(text: string, k: nat)
    requires Short(Split(text)) && k <= |Split(text)|
    ensures At(text, After(text, k), Split(text), k)
    ensures After(text, k).eof <==> k == |Split(text)|
  {
    if k == 0 {
      assert text[0..] == text && Split(text)[0..] == Split(text);
    } else {
      hide Split, Getline;
      LinesRead(text, k - 1);
      Delivers(text, After(text, k - 1), Split(text), k - 1);
    }
  }

  /** Whatever getline delivers is from one line. */
  lemma OneLine(text: string, st: Stream, size: nat)
    requires st.pos <= |text| && size >= 1
    ensures '\n' !in Getline(text, st, size).0
  {
    if !st.eof && !st.fail {
      FindStops(text[st.pos..], '\n');
    }
  }

  /** The first line begins as the text does, however long it is. */
  lemma FirstCharacter(text: string, c: char)
    requires c != '\n'
    ensures var line := Getline(text, FRESH, BUFFER_SIZE).0;
            (line != "" && line[0] == c) <==> (text != "" && text[0] == c)
  {
    assert text[0..] == text;
  }

  /** Where plain char is unsigned, a text that starts with the byte 0xEF is given up after its first line. */
  predicate Abandoned(text: string, charIsUnsigned: bool) {
    charIsUnsigned && text != "" && text[0] == '\U{EF}'
  }

  /** parse comes back. */
  ghost predicate Returns(text: string, charIsUnsigned: bool) {
    Abandoned(text, charIsUnsigned) || Ends(text)
  }
}
