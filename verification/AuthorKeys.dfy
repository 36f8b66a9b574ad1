/** What the key of an author says about the author, and which authors it does not tell apart. */
module AuthorKeys {
  import opened AuthorIndex

  // ---------------------------------------------------------------- letters

  /** The same character, or the two cases of one letter of the Latin alphabet. */
  predicate SameLetter(c: char, d: char) {
    || c == d
    || ('A' <= c <= 'Z' && d as int == c as int + 32)
    || ('A' <= d <= 'Z' && c as int == d as int + 32)
  }

  predicate SameButCase(s: string, t: string) {
    |s| == |t| && forall i :: 0 <= i < |s| ==> SameLetter(s[i], t[i])
  }

  /** Lowering changes the 26 capital letters, each into its small letter, and nothing else. */
  lemma {:induction false} LowerPointwise(s: string)
    ensures |Lower(s)| == |s|
    ensures forall i :: 0 <= i < |s| ==>
              Lower(s)[i] as int == s[i] as int + if 'A' <= s[i] <= 'Z' then 32 else 0
  {
    if s != [] {
      LowerPointwise(s[1..]);
    }
  }

  lemma LowerEqual(s: string, t: string)
    ensures Lower(s) == Lower(t) <==> SameButCase(s, t)
  {
    LowerPointwise(s);
    LowerPointwise(t);
    if Lower(s) == Lower(t) {
      forall i | 0 <= i < |s| ensures SameLetter(s[i], t[i]) {
        assert Lower(s)[i] == Lower(t)[i];
      }
    }
  }

  // ---------------------------------------------------------------- blanks

  /** Space, tab, line feed, carriage return, vertical tab, form feed. */
  const BLANKS: set<char> := {' ', '\t', '\n', '\r', '\U{0B}', '\U{0C}'}

  predicate AllBlank(s: string) {
    forall i :: 0 <= i < |s| ==> s[i] in BLANKS
  }

  predicate NoBlank(s: string) {
    forall i :: 0 <= i < |s| ==> s[i] !in BLANKS
  }

  predicate SolidEnds(s: string) {
    s != [] ==> s[0] !in BLANKS && s[|s| - 1] !in BLANKS
  }

  lemma {:induction false} StripLeftIs(s: string) returns (l: string)
    ensures s == l + StripLeft(s) && AllBlank(l)
    ensures StripLeft(s) != [] ==> StripLeft(s)[0] !in BLANKS
  {
    if s != [] && Blank(s[0]) {
      var rest := StripLeftIs(s[1..]);
      l := [s[0]] + rest;
      assert s == [s[0]] + s[1..];
    } else {
      l := [];
    }
  }

  lemma {:induction false} StripRightIs(s: string) returns (r: string)
    ensures s == StripRight(s) + r && AllBlank(r)
    ensures StripRight(s) != [] ==> StripRight(s)[|StripRight(s)| - 1] !in BLANKS
  {
    if s != [] && Blank(s[|s| - 1]) {
      var rest := StripRightIs(s[..|s| - 1]);
      r := rest + [s[|s| - 1]];
      assert s == s[..|s| - 1] + [s[|s| - 1]];
    } else {
      r := [];
    }
  }

  /** Stripping takes away the blanks at either end, and no more. */
  lemma StripIs(s: string) returns (l: string, r: string)
    ensures s == l + Strip(s) + r && AllBlank(l) && AllBlank(r) && SolidEnds(Strip(s))
  {
    l := StripLeftIs(s);
    var rest := StripLeft(s);
    r := StripRightIs(rest);
    assert StripRight(rest) != [] ==> StripRight(rest)[0] == rest[0];
  }

  lemma NothingToStrip(s: string)
    requires SolidEnds(s)
    ensures StripLeft(s) == s && Strip(s) == s
  {
  }

  lemma OneBlankGoes(s: string)
    requires s != [] && s[0] !in BLANKS
    ensures Strip(s + " ") == StripRight(s)
  {
    var t := s + " ";
    assert t[0] == s[0] && t[|t| - 1] == ' ' && t[..|t| - 1] == s;
  }

  // ---------------------------------------------------------------- the key

  lemma LowerKeepsBlanks(s: string)
    ensures |Lower(s)| == |s| && (NoBlank(s) ==> NoBlank(Lower(s)))
  {
    LowerPointwise(s);
  }

  /** Family name, first name and e-mail, in this order, as far as the last one that is given. */
  lemma KeyIs(familyName: string, firstName: string, email: string)
    requires familyName != "" && NoBlank(familyName) && NoBlank(firstName) && NoBlank(email)
    ensures var a, b, c := Lower(familyName), Lower(firstName), Lower(email);
            Key(familyName, firstName, email) ==
              if email != "" then a + " " + b + " " + c else if firstName != "" then a + " " + b else a
  {
    var a, b, c := Lower(familyName), Lower(firstName), Lower(email);
    LowerKeepsBlanks(familyName);
    LowerKeepsBlanks(firstName);
    LowerKeepsBlanks(email);
    var full := a + " " + b + " " + c;
    assert full[0] == a[0];
    if email != "" {
      assert full[|full| - 1] == c[|c| - 1];
      NothingToStrip(full);
    } else {
      assert full == (a + " " + b) + " ";
      OneBlankGoes(a + " " + b);
      if firstName != "" {
        NothingToStrip(a + " " + b);
      } else {
        assert a + " " + b == a + " ";
        OneBlankGoes(a);
        NothingToStrip(a);
      }
    }
  }

  /** Up to the first space. */
  function Word(s: string): string {
    if s == [] || s[0] == ' ' then [] else [s[0]] + Word(s[1..])
  }

  /** What comes after the first space. */
  function After(s: string): string {
    if s == [] then [] else if s[0] == ' ' then s[1..] else After(s[1..])
  }

  lemma {:induction false} FirstWord(a: string, x: string)
    requires ' ' !in a
    ensures Word(a) == a && After(a) == [] && Word(a + " " + x) == a && After(a + " " + x) == x
  {
    if a == [] {
      assert a + " " + x == [' '] + x;
    } else {
      assert a[1..] <= a[1..] && forall c :: c in a[1..] ==> c in a;
      FirstWord(a[1..], x);
      assert (a + " " + x)[1..] == a[1..] + " " + x;
    }
  }

  lemma NoSpace(s: string)
    requires NoBlank(s)
    ensures ' ' !in Lower(s)
  {
    LowerKeepsBlanks(s);
  }

  lemma PartsOf(a: string, b: string, c: string)
    requires ' ' !in a && ' ' !in b
    ensures var k := if c != "" then a + " " + b + " " + c else if b != "" then a + " " + b else a;
            Word(k) == a && Word(After(k)) == b && After(After(k)) == c
  {
    FirstWord(b, c);
    if c != "" {
      FirstWord(a, b + " " + c);
      assert a + " " + (b + " " + c) == a + " " + b + " " + c;
    } else {
      FirstWord(a, b);
    }
  }

  /** The three parts can be read off the key again. */
  lemma KeyTellsParts(familyName: string, firstName: string, email: string)
    requires familyName != "" && NoBlank(familyName) && NoBlank(firstName) && NoBlank(email)
    ensures var k := Key(familyName, firstName, email);
            Word(k) == Lower(familyName) && Word(After(k)) == Lower(firstName) && After(After(k)) == Lower(email)
  {
    KeyIs(familyName, firstName, email);
    NoSpace(familyName);
    NoSpace(firstName);
    LowerPointwise(firstName);
    LowerPointwise(email);
    PartsOf(Lower(familyName), Lower(firstName), Lower(email));
  }

  /**
    Two authors whose names and e-mails hold no blank, and who have a family
    name, get one key if and only if all three parts are the same but for case.
   */
  lemma KeysEqual(family: string, first: string, mail: string, family': string, first': string, mail': string)
    requires family != "" && NoBlank(family) && NoBlank(first) && NoBlank(mail)
    requires family' != "" && NoBlank(family') && NoBlank(first') && NoBlank(mail')
    ensures Key(family, first, mail) == Key(family', first', mail') <==>
              SameButCase(family, family') && SameButCase(first, first') && SameButCase(mail, mail')
  {
    KeyTellsParts(family, first, mail);
    KeyTellsParts(family', first', mail');
    LowerEqual(family, family');
    LowerEqual(first, first');
    LowerEqual(mail, mail');
  }

  lemma {:induction false} LowerJoined(s: string, t: string)
    ensures Lower(s + t) == Lower(s) + Lower(t)
  {
    if s == [] {
      assert s + t == t;
    } else {
      assert (s + t)[1..] == s[1..] + t;
      LowerJoined(s[1..], t);
    }
  }

  /** A blank inside a name is not told from the one between two names. */
  lemma BlankMovesBetweenNames(a: string, b: string, c: string, mail: string)
    ensures Key(a + " " + b, c, mail) == Key(a, b + " " + c, mail)
  {
    LowerJoined(a + " ", b);
    LowerJoined(a, " ");
    LowerJoined(b + " ", c);
    LowerJoined(b, " ");
    assert Lower(" ") == " ";
    assert Lower(a) + " " + Lower(b) + " " + Lower(c) + " " + Lower(mail)
        == Lower(a) + " " + (Lower(b) + " " + Lower(c)) + " " + Lower(mail);
  }
}
