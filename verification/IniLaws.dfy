/** What the lines of an INI text mean, in characters. */
module IniLaws {
  import opened IniText
  import opened IniPrint

  /** White space, as isspace has it: blank, tab, newline, vertical tab, form feed, carriage return. */
  const BLANKS := " \t\n\U{0B}\U{0C}\r"

  predicate AllBlank(s: string) {
    forall i :: 0 <= i < |s| ==> s[i] in BLANKS
  }

  predicate AllEquals(s: string) {
    forall i :: 0 <= i < |s| ==> s[i] == '='
  }

  /** The first character makes the line a comment or a header. */
  predicate Special(line: string) {
    line != "" && (line[0] == '#' || line[0] == '[' || (|line| >= 2 && line[0] == '/' && line[1] == '/'))
  }

  lemma BlankIsSpace(c: char)
    ensures IsSpace(c) <==> c in BLANKS
  {
  }

  /** Empty lines and comments mean nothing. */
  lemma CommentSkipped(line: string)
    requires '\0' !in line
    requires line == "" || line[0] == '#' || (|line| >= 2 && line[0] == '/' && line[1] == '/')
    ensures Interpret(line) == Skip
  {
    CStringWhole(line);
  }

  /** A line ends at its first NUL. */
  lemma NulEnds(line: string, rest: string)
    requires '\0' !in line
    ensures Interpret(line + "\0" + rest) == Interpret(line)
  {
    CStringWhole(line);
    FindFirst(line + "\0" + rest, '\0', |line|);
    assert (line + "\0" + rest)[..|line|] == line;
  }

  /** A header names what stands between its bracket and its last character, whatever white space follows. */
  lemma HeaderLineNames(s: string, last: char, blanks: string)
    requires '\0' !in s && last != '\0' && last !in BLANKS && AllBlank(blanks)
    ensures Interpret("[" + s + [last] + blanks) == Header(s)
  {
    var h := "[" + s + [last];
    BlanksTrimmed(h, blanks);
    CStringWhole(h + blanks);
    assert h[1..|h| - 1] == s;
    assert (h + blanks)[0] == '[';
  }

  /** The form that save prints. */
  lemma PrintedHeaderNames(s: string, blanks: string)
    requires '\0' !in s && AllBlank(blanks)
    ensures Interpret("[" + s + "]" + blanks) == Header(s)
  {
    HeaderLineNames(s, ']', blanks);
  }

  lemma {:induction false} BlanksTrimmed(s: string, blanks: string)
    requires s != "" && s[|s| - 1] !in BLANKS && AllBlank(blanks)
    ensures TrimRight(s + blanks) == s
    decreases |blanks|
  {
    if blanks == "" {
      BlankIsSpace(s[|s| - 1]);
      assert s + blanks == s;
    } else {
      BlankIsSpace(blanks[|blanks| - 1]);
      BlanksTrimmed(s, blanks[..|blanks| - 1]);
      assert (s + blanks)[..|s + blanks| - 1] == s + blanks[..|blanks| - 1];
    }
  }

  /** A bracket with nothing but white space behind it has no defined name. */
  lemma BareBracket(blanks: string)
    requires AllBlank(blanks)
    ensures Interpret("[" + blanks) == Undefined
  {
    BlanksTrimmed("[", blanks);
    CStringWhole("[" + blanks);
  }

  /**
   A key line: `=` signs and white space in front of the key do not count; the
   key goes up to the next `=`, and all the rest is the value.
   */
  lemma KeyLineAssigns(equals: string, blanks: string, k: string, v: string)
    requires AllEquals(equals) && AllBlank(blanks) && blanks + k != "" && v != ""
    requires '=' !in k && (k != "" ==> k[0] !in BLANKS)
    requires '\0' !in k && '\0' !in v && !Special(equals + blanks + k + "=" + v)
    ensures Interpret(equals + blanks + k + "=" + v) == Assign(k, v)
  {
    hide SkipSpaces, Tokens, TrimRight;
    var line, token := equals + blanks + k + "=" + v, blanks + k;
    assert '\0' !in equals && '\0' !in blanks && '=' !in blanks;
    CStringWhole(line);
    assert line == equals + (token + "=" + v);
    TokensBehind(equals, token, v);
    SpacesSkipped(blanks, k);
  }

  lemma TokensBehind(equals: string, token: string, v: string)
    requires AllEquals(equals) && token != "" && '=' !in token
    ensures Tokens(equals + (token + "=" + v)) == (token, v)
  {
    var t := token + "=" + v;
    assert t[0] == token[0];
    EqualsSkipped(equals, t);
    FindFirst(t, '=', |token|);
    assert t[..|token|] == token && t[|token| + 1..] == v;
  }

  lemma {:induction false} EqualsSkipped(equals: string, t: string)
    requires AllEquals(equals) && (t == "" || t[0] != '=')
    ensures SkipChar(equals + t, '=') == t
  {
    if equals == "" {
      assert equals + t == t;
    } else {
      EqualsSkipped(equals[1..], t);
      assert (equals + t)[1..] == equals[1..] + t;
    }
  }

  lemma {:induction false} SpacesSkipped(blanks: string, k: string)
    requires AllBlank(blanks) && (k != "" ==> k[0] !in BLANKS)
    ensures SkipSpaces(blanks + k) == k
  {
    if blanks == "" {
      assert blanks + k == k;
      if k != "" {
        BlankIsSpace(k[0]);
      }
    } else {
      BlankIsSpace(blanks[0]);
      SpacesSkipped(blanks[1..], k);
      assert (blanks + k)[1..] == blanks[1..] + k;
    }
  }

  /** A line without a value is ignored: no `=` behind a key, or nothing behind it. */
  lemma NoValueSkipped(equals: string, token: string)
    requires AllEquals(equals) && '=' !in token && '\0' !in token
    ensures !Special(equals + token) ==> Interpret(equals + token) == Skip
    ensures !Special(equals + token + "=") ==> Interpret(equals + token + "=") == Skip
  {
    hide SkipSpaces, TrimRight;
    NoTokens(equals, token);
    assert '\0' !in equals;
    CStringWhole(equals + token);
    CStringWhole(equals + token + "=");
  }

  lemma NoTokens(equals: string, token: string)
    requires AllEquals(equals) && '=' !in token
    ensures Tokens(equals + token).1 == "" && Tokens(equals + token + "=").1 == ""
  {
    EqualsSkipped(equals, token);
    FindFirst(token, '=', |token|);
    if token == "" {
      EqualsSkipped(equals + "=", "");
      assert equals + token + "=" == equals + "=" + "";
    } else {
      assert equals + token + "=" == equals + (token + "=" + "");
      TokensBehind(equals, token, "");
    }
  }

  /** The keys that save can write and parse read, in characters. */
  lemma KeyOkExact(k: string)
    ensures KeyOk(k) <==>
      && k != "" && (forall i :: 0 <= i < |k| ==> k[i] !in "=\n\0")
      && k[0] !in BLANKS && !Special(k)
  {
    if k != "" {
      BlankIsSpace(k[0]);
    }
  }
}
