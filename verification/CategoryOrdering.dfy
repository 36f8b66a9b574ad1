/**
  The order in which subcategories are listed: each is encoded as a string,
  the strings are sorted, and the ids are read back out of them.
 */
module CategoryOrdering {
  import opened Common

  datatype Sub = Sub(order: nat, name: string)

  // ------------------------------------------------------------ strings

  /** Python's order on strings. */
  predicate Before(s: string, t: string) {
    if t == [] then false
    else if s == [] then true
    else s[0] < t[0] || (s[0] == t[0] && Before(s[1..], t[1..]))
  }

  lemma {:induction false} BeforeTotal(s: string, t: string)
    ensures s == t || Before(s, t) || Before(t, s)
    ensures !(Before(s, t) && Before(t, s)) && !Before(s, s)
  {
    if s != [] {
      BeforeTotal(s[1..], s[1..]);
    }
    if s != [] && t != [] {
      BeforeTotal(s[1..], t[1..]);
      assert s == [s[0]] + s[1..] && t == [t[0]] + t[1..];
    }
  }

  lemma {:induction false} BeforeTransitive(s: string, t: string, u: string)
    requires Before(s, t) && Before(t, u)
    ensures Before(s, u)
  {
    if s != [] && s[0] == t[0] == u[0] {
      BeforeTransitive(s[1..], t[1..], u[1..]);
    }
  }

  /** Strings of one length are told apart before anything that follows them. */
  lemma {:induction false} BeforeByPrefix(p: string, q: string, s: string, t: string)
    requires |p| == |q| && Before(p, q)
    ensures Before(p + s, q + t)
  {
    assert (p + s)[0] == p[0] && (q + t)[0] == q[0];
    if p[0] == q[0] {
      BeforeByPrefix(p[1..], q[1..], s, t);
      assert (p + s)[1..] == p[1..] + s && (q + t)[1..] == q[1..] + t;
    }
  }

  lemma {:induction false} BeforeByLast(p: string, a: char, b: char)
    requires a < b
    ensures Before(p + [a], p + [b])
  {
    if p != [] {
      BeforeByLast(p[1..], a, b);
      assert (p + [a])[1..] == p[1..] + [a] && (p + [b])[1..] == p[1..] + [b];
    }
  }

  // ------------------------------------------------------------ encoding

  function Digit(d: nat): char
    requires d < 10
  {
    '0' + d as char
  }

  function Decimal(n: nat): string {
    if n < 10 then [Digit(n)] else Decimal(n / 10) + [Digit(n % 10)]
  }

  function Spaces(k: nat): (s: string)
    ensures |s| == k && (k > 0 ==> s[0] == ' ')
  {
    if k == 0 then "" else Spaces(k - 1) + " "
  }

  /** `"%04s"`: the zero has no effect on a string, which is padded with spaces. */
  function Padded(n: nat): string {
    var d := Decimal(n);
    if |d| < 4 then Spaces(4 - |d|) + d else d
  }

  /** `replace("-", "")`. */
  function WithoutDashes(s: string): (r: string)
    ensures '-' !in r
  {
    if s == [] then [] else if s[0] == '-' then WithoutDashes(s[1..]) else [s[0]] + WithoutDashes(s[1..])
  }

  /** Dropping the dashes, piece by piece. */
  lemma {:induction false} DashesDropped(s: string, t: string)
    ensures WithoutDashes(s + t) == WithoutDashes(s) + WithoutDashes(t)
    ensures WithoutDashes("-") == "" && ('-' !in s ==> WithoutDashes(s) == s)
  {
    if s == [] {
      assert s + t == t;
    } else {
      assert (s + t)[1..] == s[1..] + t;
      DashesDropped(s[1..], t);
    }
  }

  function Encoded(id: string, sub: Sub): string {
    Padded(sub.order) + WithoutDashes(sub.name) + "-" + id
  }

  /** `split("-")`. */
  function Split(s: string): (parts: seq<string>)
    ensures parts != []
  {
    if s == [] then [[]]
    else
      var rest := Split(s[1..]);
      if s[0] == '-' then [[]] + rest else [[s[0]] + rest[0]] + rest[1..]
  }

  lemma {:induction false} SplitAtDash(s: string, t: string)
    requires '-' !in s
    ensures Split(s + "-" + t) == [s] + Split(t)
  {
    if s == [] {
      assert s + "-" + t == "-" + t;
    } else {
      assert (s + "-" + t)[1..] == s[1..] + "-" + t;
      SplitAtDash(s[1..], t);
      assert s == [s[0]] + s[1..];
      assert ([s[1..]] + Split(t))[1..] == Split(t);
    }
  }

  lemma {:induction false} SplitPlain(s: string)
    requires '-' !in s
    ensures Split(s) == [s]
  {
    if s != [] {
      SplitPlain(s[1..]);
      assert s == [s[0]] + s[1..];
    }
  }

  lemma {:induction false} NoDashInNumbers(n: nat)
    ensures '-' !in Decimal(n)
  {
    if n >= 10 {
      NoDashInNumbers(n / 10);
    }
  }

  lemma {:induction false} NoDashInSpaces(k: nat)
    ensures '-' !in Spaces(k)
  {
    if k > 0 {
      NoDashInSpaces(k - 1);
    }
  }

  /** What comes back is the part of the id before its first dash: the id itself, if it has none. */
  lemma DecodedId(id: string, sub: Sub)
    ensures Split(Encoded(id, sub)) == [Padded(sub.order) + WithoutDashes(sub.name)] + Split(id)
    ensures Split(Encoded(id, sub))[1] == id <==> '-' !in id
  {
    NoDashInNumbers(sub.order);
    if |Decimal(sub.order)| < 4 {
      NoDashInSpaces(4 - |Decimal(sub.order)|);
    }
    SplitAtDash(Padded(sub.order) + WithoutDashes(sub.name), id);
    if '-' !in id {
      SplitPlain(id);
    } else {
      FirstPartIsPlain(id);
    }
  }

  lemma {:induction false} FirstPartIsPlain(s: string)
    ensures '-' !in Split(s)[0]
  {
    if s != [] {
      FirstPartIsPlain(s[1..]);
    }
  }

  // ------------------------------------------------------------ padding

  /** All digits of `m` but a leading zero, in a field of width `w`. */
  function Field(w: nat, m: nat): (s: string)
    ensures |s| == w
    decreases w
  {
    if m == 0 || w == 0 then Spaces(w) else Field(w - 1, m / 10) + [Digit(m % 10)]
  }

  lemma {:induction false} FieldIncreases(w: nat, m: nat, n: nat)
    requires m < n && n < Power(w)
    ensures Before(Field(w, m), Field(w, n))
    decreases w
  {
    if w > 0 {
      var c := if m == 0 then ' ' else Digit(m % 10);
      assert Field(w, m) == Field(w - 1, m / 10) + [c] by {
        assert m == 0 ==> Field(w, m) == Spaces(w - 1) + " ";
      }
      if m / 10 < n / 10 {
        FieldIncreases(w - 1, m / 10, n / 10);
        BeforeByPrefix(Field(w - 1, m / 10), Field(w - 1, n / 10), [c], [Digit(n % 10)]);
      } else {
        BeforeByLast(Field(w - 1, m / 10), c, Digit(n % 10));
      }
    }
  }

  function Power(w: nat): nat {
    if w == 0 then 1 else 10 * Power(w - 1)
  }

  lemma {:induction false} DecimalFits(w: nat, n: nat)
    requires 0 < n < Power(w)
    ensures |Decimal(n)| <= w && Field(w, n) == Spaces(w - |Decimal(n)|) + Decimal(n)
    decreases w
  {
    if n < 10 {
      assert Field(w - 1, 0) == Spaces(w - 1);
    } else {
      DecimalFits(w - 1, n / 10);
    }
  }

  /** Within four digits the padded strings are ordered like the numbers. */
  lemma PaddedIncreases(m: nat, n: nat)
    requires m < n < 10000
    ensures |Padded(m)| == |Padded(n)| == 4 && Before(Padded(m), Padded(n))
  {
    assert Power(4) == 10 * (10 * (10 * (10 * 1)));
    DecimalFits(4, n);
    assert |Decimal(n)| == 4 ==> Spaces(0) + Decimal(n) == Decimal(n);
    if m > 0 {
      DecimalFits(4, m);
      assert |Decimal(m)| == 4 ==> Spaces(0) + Decimal(m) == Decimal(m);
      FieldIncreases(4, m, n);
    } else {
      ZeroFirst(n);
    }
  }

  lemma ZeroFirst(n: nat)
    requires 0 < n < 10000
    ensures Padded(0) == "   0" && Before("   0", Field(4, n))
  {
    assert Spaces(1) == " " && Spaces(2) == "  " && Spaces(3) == "   ";
    assert Power(4) == 10 * (10 * (10 * (10 * 1)));
    if n < 10 {
      assert Field(3, 0) == Spaces(3);
      BeforeByLast("   ", '0', Digit(n));
      assert Field(4, n) == "   " + [Digit(n)];
    } else {
      FieldIncreases(3, 0, n / 10);
      BeforeByPrefix("   ", Field(3, n / 10), "0", [Digit(n % 10)]);
    }
  }

  // --------------------------------------------- numbers of any length

  lemma {:induction false} DecimalDigits(n: nat)
    ensures Decimal(n) != [] && forall c :: c in Decimal(n) ==> '0' <= c <= '9'
  {
    if n >= 10 {
      DecimalDigits(n / 10);
    }
  }

  lemma {:induction false} DecimalGrows(m: nat, n: nat)
    requires m <= n
    ensures |Decimal(m)| <= |Decimal(n)|
  {
    if m >= 10 {
      DecimalGrows(m / 10, n / 10);
    }
  }

  lemma FourDigits(n: nat)
    ensures n >= 1000 <==> |Decimal(n)| >= 4
  {
    assert Decimal(1000) == "1000" && Decimal(999) == "999" by {
      assert Decimal(1) == "1" && Decimal(10) == "10" && Decimal(100) == "100";
      assert Decimal(9) == "9" && Decimal(99) == "99";
    }
    if n >= 1000 {
      DecimalGrows(1000, n);
    } else {
      DecimalGrows(n, 999);
    }
  }

  /** Among numbers with as many digits the strings are ordered like the numbers. */
  lemma {:induction false} DecimalIncreases(m: nat, n: nat)
    requires m < n && |Decimal(m)| == |Decimal(n)|
    ensures Before(Decimal(m), Decimal(n))
  {
    if n >= 10 {
      if m / 10 < n / 10 {
        DecimalIncreases(m / 10, n / 10);
        BeforeByPrefix(Decimal(m / 10), Decimal(n / 10), [Digit(m % 10)], [Digit(n % 10)]);
      } else {
        BeforeByLast(Decimal(m / 10), Digit(m % 10), Digit(n % 10));
      }
    }
  }

  /** The number made of the first `d` digits of `n`. */
  function Leading(n: nat, d: nat): nat
    requires d >= 1
  {
    if |Decimal(n)| <= d then n else Leading(n / 10, d)
  }

  lemma {:induction false} LeadingDigits(n: nat, d: nat)
    requires 1 <= d <= |Decimal(n)|
    ensures Decimal(Leading(n, d)) == Decimal(n)[..d]
  {
    if |Decimal(n)| > d {
      LeadingDigits(n / 10, d);
      assert Decimal(n)[..d] == Decimal(n / 10)[..d];
    } else {
      assert Decimal(n)[..d] == Decimal(n);
    }
  }

  lemma {:induction false} BeforeAfterPrefix(p: string, s: string, t: string)
    ensures Before(p + s, p + t) <==> Before(s, t)
  {
    if p == [] {
      assert p + s == s && p + t == t;
    } else {
      BeforeAfterPrefix(p[1..], s, t);
      assert (p + s)[1..] == p[1..] + s && (p + t)[1..] == p[1..] + t;
    }
  }

  /** The smaller number `m` is padded, or as long as `n`, or smaller than the first digits of `n`. */
  predicate NumbersDecide(m: nat, n: nat) {
    m < 1000 || |Decimal(m)| == |Decimal(n)| || (Decimal(m) != [] && m < Leading(n, |Decimal(m)|))
  }

  lemma UpToFourDigitsDecide(m: nat, n: nat)
    requires m < n < 10000
    ensures NumbersDecide(m, n)
  {
    if m >= 1000 {
      FourDigits(m);
      DecimalFits(4, m);
      DecimalFits(4, n);
      DecimalGrows(m, n);
    }
  }

  function Rest(id: string, name: string): string {
    WithoutDashes(name) + "-" + id
  }

  lemma EncodedLong(n: nat, id: string, name: string)
    requires n >= 1000
    ensures Encoded(id, Sub(n, name)) == Decimal(n) + Rest(id, name)
  {
    FourDigits(n);
    assert Decimal(n) + WithoutDashes(name) + "-" + id == Decimal(n) + (WithoutDashes(name) + "-" + id);
  }

  lemma EncodedFromLeading(n: nat, d: nat, id: string, name: string)
    requires n >= 1000 && 1 <= d <= |Decimal(n)|
    ensures Encoded(id, Sub(n, name)) == Decimal(Leading(n, d)) + (Decimal(n)[d..] + Rest(id, name))
    ensures |Decimal(Leading(n, d))| == d
  {
    EncodedLong(n, id, name);
    LeadingDigits(n, d);
    assert Decimal(n) == Decimal(n)[..d] + Decimal(n)[d..];
  }

  /** If the numbers decide, the smaller one comes first. */
  lemma DecidedByNumbers(m: nat, n: nat, id: string, name: string, id': string, name': string)
    requires m < n && NumbersDecide(m, n)
    ensures Before(Encoded(id, Sub(m, name)), Encoded(id', Sub(n, name')))
  {
    if n < 10000 {
      var s, t := Rest(id, name), Rest(id', name');
      assert Encoded(id, Sub(m, name)) == Padded(m) + s && Encoded(id', Sub(n, name')) == Padded(n) + t;
      PaddedIncreases(m, n);
      BeforeByPrefix(Padded(m), Padded(n), s, t);
    } else if m < 1000 {
      PaddedFirst(m, n, id, name, id', name');
    } else {
      LongDecided(m, n, id, name, id', name');
    }
  }

  lemma PaddedFirst(m: nat, n: nat, id: string, name: string, id': string, name': string)
    requires m < 1000 <= n
    ensures Before(Encoded(id, Sub(m, name)), Encoded(id', Sub(n, name')))
  {
    FourDigits(m);
    EncodedLong(n, id', name');
    DecimalDigits(n);
    assert Encoded(id, Sub(m, name))[0] == Padded(m)[0] == ' ';
    assert Encoded(id', Sub(n, name'))[0] == Decimal(n)[0] && Decimal(n)[0] in Decimal(n);
  }

  lemma LongDecided(m: nat, n: nat, id: string, name: string, id': string, name': string)
    requires 1000 <= m < n && NumbersDecide(m, n)
    ensures Before(Encoded(id, Sub(m, name)), Encoded(id', Sub(n, name')))
  {
    var d := |Decimal(m)|;
    FourDigits(m);
    DecimalGrows(m, n);
    EncodedLong(m, id, name);
    EncodedFromLeading(n, d, id', name');
    assert d == |Decimal(n)| ==> Leading(n, d) == n;
    DecimalIncreases(m, Leading(n, d));
    BeforeByPrefix(Decimal(m), Decimal(Leading(n, d)), Rest(id, name), Decimal(n)[d..] + Rest(id', name'));
  }

  /** If they do not, a name can put the larger one first. */
  lemma UndecidedByNumbers(m: nat, n: nat, id: string, id': string, name': string)
    requires m < n && !NumbersDecide(m, n)
    ensures Before(Encoded(id', Sub(n, name')), Encoded(id, Sub(m, "~")))
  {
    var d := |Decimal(m)|;
    FourDigits(m);
    DecimalGrows(m, n);
    EncodedLong(m, id, "~");
    EncodedFromLeading(n, d, id', name');
    var rest := Decimal(n)[d..] + Rest(id', name');
    if Leading(n, d) < m {
      DecimalIncreases(Leading(n, d), m);
      BeforeByPrefix(Decimal(Leading(n, d)), Decimal(m), rest, Rest(id, "~"));
    } else {
      DigitBeforeTilde(n, d, Rest(id', name'), id);
      BeforeAfterPrefix(Decimal(m), rest, Rest(id, "~"));
    }
  }

  lemma DigitBeforeTilde(n: nat, d: nat, t: string, id: string)
    requires d < |Decimal(n)|
    ensures Before(Decimal(n)[d..] + t, Rest(id, "~"))
  {
    DecimalDigits(n);
    assert "~"[1..] == "" && WithoutDashes("~") == "~";
    assert (Decimal(n)[d..] + t)[0] == Decimal(n)[d] && Decimal(n)[d] in Decimal(n);
    assert Rest(id, "~")[0] == '~';
  }

  /** Two children are listed in numeric order whatever they are called if and only if their numbers decide. */
  lemma InOrderWhateverTheNames(m: nat, n: nat)
    requires m < n
    ensures (forall id, name, id', name' :: Before(Encoded(id, Sub(m, name)), Encoded(id', Sub(n, name')))) <==>
              NumbersDecide(m, n)
  {
    if NumbersDecide(m, n) {
      forall id, name, id', name' ensures Before(Encoded(id, Sub(m, name)), Encoded(id', Sub(n, name'))) {
        DecidedByNumbers(m, n, id, name, id', name');
      }
    } else {
      UndecidedByNumbers(m, n, "", "", "");
      BeforeTotal(Encoded("", Sub(m, "~")), Encoded("", Sub(n, "")));
    }
  }

  /** Of two siblings numbered 9999 and 10000 the first is listed last, whatever their names. */
  lemma FiveDigitsComeFirst(id: string, name: string, id': string, name': string)
    ensures Before(Encoded(id, Sub(10000, name)), Encoded(id', Sub(9999, name')))
  {
    assert Decimal(10000) == "10000" && Decimal(9999) == "9999" by {
      assert Decimal(1) == "1" && Decimal(10) == "10" && Decimal(100) == "100" && Decimal(1000) == "1000";
      assert Decimal(9) == "9" && Decimal(99) == "99" && Decimal(999) == "999";
    }
    assert Encoded(id, Sub(10000, name))[0] == '1' && Encoded(id', Sub(9999, name'))[0] == '9';
  }

  // ------------------------------------------------------- equal numbers

  /** The dash that follows a name decides between the name and a longer one that starts with it. */
  predicate NameFirst(s: string, t: string) {
    if s < t then '-' < t[|s|] else if t < s then s[|t|] < '-' else Before(s, t)
  }

  lemma {:induction false} BeforeWithDash(s: string, x: string, t: string, y: string)
    requires s != t && '-' !in s && '-' !in t
    ensures Before(s + "-" + x, t + "-" + y) <==> NameFirst(s, t)
  {
    var u, v := s + "-" + x, t + "-" + y;
    if s == [] || t == [] {
      assert (s == [] ==> u[0] == '-') && (t == [] ==> v[0] == '-');
    } else {
      assert u[0] == s[0] && v[0] == t[0];
      assert s == [s[0]] + s[1..] && t == [t[0]] + t[1..];
      if s[0] == t[0] {
        assert u[1..] == s[1..] + "-" + x && v[1..] == t[1..] + "-" + y;
        BeforeWithDash(s[1..], x, t[1..], y);
      }
    }
  }

  /** Of two children with one number the name decides; of two with one name too, the id. */
  lemma DecidedByNames(n: nat, id: string, name: string, id': string, name': string)
    ensures var s, t := WithoutDashes(name), WithoutDashes(name');
            Before(Encoded(id, Sub(n, name)), Encoded(id', Sub(n, name'))) <==>
              if s == t then Before(id, id') else NameFirst(s, t)
  {
    var s, t := WithoutDashes(name), WithoutDashes(name');
    assert Encoded(id, Sub(n, name)) == Padded(n) + (s + "-" + id);
    assert Encoded(id', Sub(n, name')) == Padded(n) + (t + "-" + id');
    BeforeAfterPrefix(Padded(n), s + "-" + id, t + "-" + id');
    if s == t {
      BeforeAfterPrefix(s + "-", id, id');
    } else {
      BeforeWithDash(s, id, t, id');
    }
  }

  /** Names come in their own order, but where the longer of two goes on with a character below the dash. */
  lemma NamesInOrder(s: string, t: string)
    requires Before(s, t) && '-' !in t
    ensures NameFirst(s, t) <==> !(s < t && t[|s|] < '-')
    ensures NameFirst(t, s) <==> s < t && t[|s|] < '-'
  {
    BeforeTotal(s, t);
    NoPrefixAfter(t, s);
    if s < t {
      assert t[|s|] in t;
    }
  }

  lemma {:induction false} NoPrefixAfter(s: string, t: string)
    ensures s <= t ==> !Before(t, s)
  {
    if s != [] && s <= t {
      NoPrefixAfter(s[1..], t[1..]);
    }
  }

  // ------------------------------------------------------------ the list

  predicate Sorted(s: seq<string>) {
    forall i, j :: 0 <= i < j < |s| ==> !Before(s[j], s[i])
  }

  /** `list.sort()`, one string at a time. */
  method Insert(s: seq<string>, x: string) returns (r: seq<string>)
    requires Sorted(s)
    ensures Sorted(r) && multiset(r) == multiset(s) + multiset{x}
  {
    var i := |s|;
    while i > 0 && Before(x, s[i - 1])
      invariant 0 <= i <= |s|
      invariant forall j :: i <= j < |s| ==> Before(x, s[j])
    {
      i := i - 1;
    }
    r := s[..i] + [x] + s[i..];
    assert s == s[..i] + s[i..];
    InsertedIsSorted(s, x, i);
  }

  lemma InsertedIsSorted(s: seq<string>, x: string, i: nat)
    requires Sorted(s) && i <= |s| && (forall j :: i <= j < |s| ==> Before(x, s[j])) && (i > 0 ==> !Before(x, s[i - 1]))
    ensures Sorted(s[..i] + [x] + s[i..])
  {
    var r := s[..i] + [x] + s[i..];
    forall j, k | 0 <= j < k < |r| ensures !Before(r[k], r[j]) {
      if k == i {
        NotBeforeEarlier(s, x, i, j);
      } else if j == i {
        BeforeTotal(x, s[k - 1]);
      }
    }
  }

  lemma NotBeforeEarlier(s: seq<string>, x: string, i: nat, j: nat)
    requires Sorted(s) && j < i <= |s| && !Before(x, s[i - 1])
    ensures !Before(x, s[j])
  {
    BeforeTotal(x, s[i - 1]);
    BeforeTotal(s[j], s[i - 1]);
    if Before(x, s[j]) && Before(s[j], s[i - 1]) {
      BeforeTransitive(x, s[j], s[i - 1]);
    }
  }

  method Sort(s: seq<string>) returns (r: seq<string>)
    ensures Sorted(r) && multiset(r) == multiset(s)
  {
    r := [];
    for i := 0 to |s|
      invariant Sorted(r) && multiset(r) == multiset(s[..i])
    {
      assert s[..i + 1] == s[..i] + [s[i]];
      r := Insert(r, s[i]);
    }
    assert s[..|s|] == s;
  }

  lemma {:induction false} OnceEach(s: seq<string>, codes: set<string>)
    requires multiset(s) == multiset(codes)
    ensures Distinct(s) && forall c :: c in s <==> c in codes
  {
    forall c ensures c in s <==> c in codes {
      assert c in multiset(s) <==> c in multiset(codes);
    }
    forall i, j | 0 <= i < j < |s| ensures s[i] != s[j] {
      if s[i] == s[j] {
        CountedTwice(s, i, j);
      }
    }
  }

  lemma CountedTwice(s: seq<string>, i: nat, j: nat)
    requires i < j < |s| && s[i] == s[j]
    ensures multiset(s)[s[i]] >= 2
  {
    assert s == s[..i] + [s[i]] + s[i + 1..j] + [s[j]] + s[j + 1..];
  }

  ghost function Codes(subs: map<string, Sub>, ids: set<string>): set<string>
    requires ids <= subs.Keys
  {
    set id | id in ids :: Encoded(id, subs[id])
  }

  ghost predicate Plain(subs: map<string, Sub>) {
    forall id :: id in subs ==> '-' !in id
  }

  /** First loop of `getSubCategoryList`. */
  method EncodeAll(subs: map<string, Sub>) returns (cl: seq<string>)
    requires Plain(subs)
    ensures multiset(cl) == multiset(Codes(subs, subs.Keys))
  {
    cl := [];
    var rest := subs.Keys;
    assert Codes(subs, {}) == {};
    while rest != {}
      invariant rest <= subs.Keys && multiset(cl) == multiset(Codes(subs, subs.Keys - rest))
    {
      var id :| id in rest;
      ghost var codes := Codes(subs, subs.Keys - rest);
      forall other | other in subs.Keys - rest ensures Encoded(other, subs[other]) != Encoded(id, subs[id]) {
        DecodedId(id, subs[id]);
        DecodedId(other, subs[other]);
      }
      assert Codes(subs, subs.Keys - (rest - {id})) == codes + {Encoded(id, subs[id])};
      cl := cl + [Encoded(id, subs[id])];
      rest := rest - {id};
    }
    assert subs.Keys - {} == subs.Keys;
  }

  lemma DecodedCode(subs: map<string, Sub>, c: string)
    requires Plain(subs) && c in Codes(subs, subs.Keys)
    ensures |Split(c)| > 1 && Split(c)[1] in subs && c == Encoded(Split(c)[1], subs[Split(c)[1]])
  {
    var id :| id in subs && c == Encoded(id, subs[id]);
    DecodedId(id, subs[id]);
  }

  /** Second loop. */
  method DecodeAll(subs: map<string, Sub>, cl: seq<string>) returns (ids: seq<string>)
    requires Plain(subs) && forall c :: c in cl ==> c in Codes(subs, subs.Keys)
    ensures |ids| == |cl| && forall i :: 0 <= i < |cl| ==> ids[i] in subs && cl[i] == Encoded(ids[i], subs[ids[i]])
  {
    ids := [];
    for i := 0 to |cl|
      invariant |ids| == i && forall j :: 0 <= j < i ==> ids[j] in subs && cl[j] == Encoded(ids[j], subs[ids[j]])
    {
      assert cl[i] in cl;
      DecodedCode(subs, cl[i]);
      ids := ids + [Split(cl[i])[1]];
    }
  }

  /** `getSubCategoryList`: every subcategory once, in numeric order while the numbers have at most four digits. */
  method GetSubCategoryList(subs: map<string, Sub>) returns (ids: seq<string>)
    requires Plain(subs)
    ensures Distinct(ids) && forall id :: id in ids <==> id in subs
    ensures (forall id :: id in subs ==> subs[id].order < 10000) ==>
              forall i, j :: 0 <= i < j < |ids| && ids[i] in subs && ids[j] in subs ==>
                subs[ids[i]].order <= subs[ids[j]].order
    ensures forall i, j :: 0 <= i < j < |ids| && ids[i] in subs && ids[j] in subs
                           && subs[ids[j]].order < subs[ids[i]].order ==>
              !NumbersDecide(subs[ids[j]].order, subs[ids[i]].order)
    ensures forall i, j :: 0 <= i < j < |ids| && ids[i] in subs && ids[j] in subs
                           && subs[ids[i]].order == subs[ids[j]].order ==>
              var s, t := WithoutDashes(subs[ids[i]].name), WithoutDashes(subs[ids[j]].name);
              if s == t then Before(ids[i], ids[j]) else NameFirst(s, t)
  {
    var cl := EncodeAll(subs);
    cl := Sort(cl);
    OnceEach(cl, Codes(subs, subs.Keys));
    ids := DecodeAll(subs, cl);
    forall id | id in subs ensures id in ids {
      assert Encoded(id, subs[id]) in Codes(subs, subs.Keys);
      var i :| 0 <= i < |cl| && cl[i] == Encoded(id, subs[id]);
      DecodedId(id, subs[id]);
      DecodedId(ids[i], subs[ids[i]]);
    }
    forall i, j | 0 <= i < j < |ids| && subs[ids[j]].order < subs[ids[i]].order
      ensures !NumbersDecide(subs[ids[j]].order, subs[ids[i]].order)
    {
      if NumbersDecide(subs[ids[j]].order, subs[ids[i]].order) {
        DecidedByNumbers(subs[ids[j]].order, subs[ids[i]].order, ids[j], subs[ids[j]].name, ids[i], subs[ids[i]].name);
      }
    }
    forall i, j | 0 <= i < j < |ids| && subs[ids[i]].order == subs[ids[j]].order
      ensures var s, t := WithoutDashes(subs[ids[i]].name), WithoutDashes(subs[ids[j]].name);
              if s == t then Before(ids[i], ids[j]) else NameFirst(s, t)
    {
      BeforeTotal(cl[i], cl[j]);
      DecidedByNames(subs[ids[i]].order, ids[i], subs[ids[i]].name, ids[j], subs[ids[j]].name);
    }
    if forall id :: id in subs ==> subs[id].order < 10000 {
      forall i, j | 0 <= i < j < |ids| ensures subs[ids[i]].order <= subs[ids[j]].order {
        if subs[ids[j]].order < subs[ids[i]].order {
          UpToFourDigitsDecide(subs[ids[j]].order, subs[ids[i]].order);
        }
      }
    }
  }

  /**
    The number `newSubCategory` gives to the child it has just added with number
    zero: one more than that of the child listed last, so above all its siblings
    while these have at most four digits.
   */
  method NewOrder(subs: map<string, Sub>, id: string) returns (order: nat)
    requires Plain(subs) && id in subs && subs[id].order == 0
    ensures exists last :: last in subs && order == subs[last].order + 1
    ensures (forall other :: other in subs ==> subs[other].order < 10000) ==>
              forall other :: other in subs ==> subs[other].order < order
    // a sibling at or above the new number is one that a name has put before the last
    ensures forall other :: other in subs && subs[other].order >= order ==> !NumbersDecide(order - 1, subs[other].order)
  {
    var ids := GetSubCategoryList(subs);
    assert id in ids;
    var last := ids[|ids| - 1];
    order := subs[last].order + 1;
    forall other | other in subs
      ensures subs[other].order >= order ==> !NumbersDecide(order - 1, subs[other].order)
      ensures (forall o :: o in subs ==> subs[o].order < 10000) ==> subs[other].order < order
    {
      var i :| 0 <= i < |ids| && ids[i] == other;
      assert i == |ids| - 1 || (i < |ids| - 1 && ids[i] in subs && ids[|ids| - 1] in subs);
    }
  }
}
