/** Cache keys of the addon proxy (apps/server/src/addons/proxy-cache.ts, class
    `CacheKeyGenerator`): the shift-and-mask hash and the permission scope. */
module CacheKeys {
  import opened Basics

  /** JavaScript strings are sequences of 16-bit code units. */
  newtype Unit = n: int | 0 <= n < 0x1_0000
  type Text = seq<Unit>

  // ---------------------------------------------------------------- the hash

  const TWO_32 := 0x1_0000_0000
  const TWO_31 := 0x8000_0000

  /** What the bitwise operators make of a number: its value modulo 2^32, signed. */
  function ToInt32(x: int): (r: int)
    ensures -TWO_31 <= r < TWO_31
  {
    (x + TWO_31) % TWO_32 - TWO_31
  }

  function ShiftLeft5(x: int): int {
    ToInt32(ToInt32(x) * 32)
  }

  function Abs(x: int): nat {
    if x < 0 then -x else x
  }

  /** The polynomial in 31 with the code units as coefficients, over the integers. */
  function Polynomial(s: Text): nat {
    if s == [] then 0 else 31 * Polynomial(s[..|s| - 1]) + s[|s| - 1] as int
  }

  lemma ToInt32Congruent(x: int)
    ensures exists k :: x == ToInt32(x) + k * TWO_32
  {
    var k := (x + TWO_31) / TWO_32;
    assert x == ToInt32(x) + k * TWO_32;
  }

  lemma CongruentSame(x: int, y: int, k: int)
    requires x == y + k * TWO_32
    ensures ToInt32(x) == ToInt32(y)
  {
    assert (x + TWO_31) == (y + TWO_31) + k * TWO_32;
    ModShift(y + TWO_31, k);
  }

  lemma ModShift(x: int, k: int)
    ensures (x + k * TWO_32) % TWO_32 == x % TWO_32
  {
  }

  /** One turn of the loop is one step of the polynomial, modulo 2^32. */
  lemma HashStep(p: int, c: int)
    ensures var h := ToInt32(p);
            ToInt32(ShiftLeft5(h) - h + c) == ToInt32(31 * p + c)
  {
    var h := ToInt32(p);
    ToInt32Congruent(p);
    var j :| p == h + j * TWO_32;
    assert ToInt32(h) == h;
    ToInt32Congruent(h * 32);
    var k :| h * 32 == ShiftLeft5(h) + k * TWO_32;
    assert 31 * p + c == (ShiftLeft5(h) - h + c) + (31 * j + k) * TWO_32;
    CongruentSame(31 * p + c, ShiftLeft5(h) - h + c, 31 * j + k);
  }

  function HashValue(s: Text): nat {
    Abs(ToInt32(Polynomial(s)))
  }

  method Hash(str: Text) returns (r: string)
    ensures r == Numeral(HashValue(str), 36)
  {
    var hash := 0;
    for i := 0 to |str|
      invariant hash == ToInt32(Polynomial(str[..i]))
    {
      assert str[..i + 1][..i] == str[..i];
      HashStep(Polynomial(str[..i]), str[i] as int);
      var unit := str[i] as int;
      hash := ShiftLeft5(hash) - hash + unit;
      hash := ToInt32(hash);
    }
    assert str[..|str|] == str;
    r := Numeral(Abs(hash), 36);
  }

  lemma ToInt32Exactly(x: int, y: int)
    ensures ToInt32(x) == ToInt32(y) <==> (x - y) % TWO_32 == 0
    ensures ToInt32(x) == -ToInt32(y) ==> (x + y) % TWO_32 == 0
    ensures (x + y) % TWO_32 == 0 ==> ToInt32(x) == -ToInt32(y) || ToInt32(x) == ToInt32(y) == -TWO_31
  {
    ToInt32Congruent(x);
    ToInt32Congruent(y);
    var j :| x == ToInt32(x) + j * TWO_32;
    var k :| y == ToInt32(y) + k * TWO_32;
    ModShift(ToInt32(x) - ToInt32(y), j - k);
    ModShift(ToInt32(x) + ToInt32(y), j + k);
    assert x - y == ToInt32(x) - ToInt32(y) + (j - k) * TWO_32;
    assert x + y == ToInt32(x) + ToInt32(y) + (j + k) * TWO_32;
  }

  /** The hash of two strings is the same exactly when their polynomials are equal or
      opposite modulo 2^32, and it is never more than 2^31. */
  lemma SameHashExactlyWhen(a: Text, b: Text)
    ensures HashValue(a) <= TWO_31
    ensures Numeral(HashValue(a), 36) == Numeral(HashValue(b), 36)
            <==> (Polynomial(a) - Polynomial(b)) % TWO_32 == 0 || (Polynomial(a) + Polynomial(b)) % TWO_32 == 0
  {
    ToInt32Exactly(Polynomial(a), Polynomial(b));
    if Numeral(HashValue(a), 36) == Numeral(HashValue(b), 36) {
      NumeralInjective(HashValue(a), HashValue(b), 36);
    }
  }

  // ---------------------------------------------------------------- the permission scope

  /** The default order of `sort`: by code units, a prefix first. */
  predicate Before(a: Text, b: Text) {
    a == [] || (b != [] && (a[0] < b[0] || (a[0] == b[0] && Before(a[1..], b[1..]))))
  }

  /** Where two texts differ first, with the smaller unit in the first one. */
  ghost predicate Differ(a: Text, b: Text, i: nat) {
    i < |a| && i < |b| && a[..i] == b[..i] && a[i] < b[i]
  }

  lemma DifferLater(a: Text, b: Text, i: nat)
    requires a != [] && b != [] && a[0] == b[0]
    ensures Differ(a[1..], b[1..], i) <==> Differ(a, b, i + 1)
  {
    if i < |a| - 1 && i < |b| - 1 {
      assert a[..i + 1] == [a[0]] + a[1..][..i] && b[..i + 1] == [b[0]] + b[1..][..i];
    }
  }

  /** One is the beginning of the other, or the first difference decides. */
  lemma {:induction false} BeforeExactly(a: Text, b: Text)
    ensures Before(a, b) <==> a <= b || exists i :: Differ(a, b, i)
  {
    if a == [] || b == [] {
    } else if a[0] == b[0] {
      BeforeExactly(a[1..], b[1..]);
      assert a == [a[0]] + a[1..] && b == [b[0]] + b[1..];
      if i: nat :| Differ(a[1..], b[1..], i) {
        DifferLater(a, b, i);
      }
      if i: nat :| Differ(a, b, i) {
        DifferLater(a, b, i - 1);
      }
    } else {
      assert a[0] < b[0] ==> Differ(a, b, 0);
      if i: nat :| Differ(a, b, i) {
        assert i > 0 ==> a[..i][0] == b[..i][0];
      }
    }
  }

  lemma {:induction false} BeforeTotal(a: Text, b: Text)
    ensures Before(a, b) || Before(b, a)
  {
    if a != [] && b != [] {
      BeforeTotal(a[1..], b[1..]);
    }
  }

  lemma {:induction false} BeforeAntisymmetric(a: Text, b: Text)
    requires Before(a, b) && Before(b, a)
    ensures a == b
  {
    if a != [] && b != [] {
      BeforeAntisymmetric(a[1..], b[1..]);
      assert a == [a[0]] + a[1..] && b == [b[0]] + b[1..];
    }
  }

  lemma {:induction false} BeforeTransitive(a: Text, b: Text, c: Text)
    requires Before(a, b) && Before(b, c)
    ensures Before(a, c)
  {
    if a != [] && a[0] == b[0] == c[0] {
      BeforeTransitive(a[1..], b[1..], c[1..]);
    }
  }

  ghost predicate InOrder(s: seq<Text>) {
    forall i, j :: 0 <= i < j < |s| ==> Before(s[i], s[j])
  }

  function Insert(x: Text, s: seq<Text>): seq<Text> {
    if s == [] || Before(x, s[0]) then [x] + s else [s[0]] + Insert(x, s[1..])
  }

  function Sorted(s: seq<Text>): seq<Text> {
    if s == [] then [] else Insert(s[0], Sorted(s[1..]))
  }

  lemma {:induction false} InsertPermutes(x: Text, s: seq<Text>)
    ensures multiset(Insert(x, s)) == multiset(s) + multiset{x}
  {
    if s != [] && !Before(x, s[0]) {
      InsertPermutes(x, s[1..]);
      assert s == [s[0]] + s[1..];
    }
  }

  lemma InsertMembers(x: Text, s: seq<Text>, j: nat)
    requires j < |Insert(x, s)|
    ensures Insert(x, s)[j] == x || Insert(x, s)[j] in s
  {
    InsertPermutes(x, s);
    assert Insert(x, s)[j] in multiset(Insert(x, s));
  }

  lemma {:induction false} InsertKeepsOrder(x: Text, s: seq<Text>)
    requires InOrder(s)
    ensures InOrder(Insert(x, s))
  {
    if s == [] {
    } else if Before(x, s[0]) {
      forall j | 0 <= j < |s|
        ensures Before(x, s[j])
      {
        if j > 0 { BeforeTransitive(x, s[0], s[j]); }
      }
    } else {
      BeforeTotal(x, s[0]);
      InsertKeepsOrder(x, s[1..]);
      forall j | 0 <= j < |Insert(x, s[1..])|
        ensures Before(s[0], Insert(x, s[1..])[j])
      {
        InsertMembers(x, s[1..], j);
      }
    }
  }

  /** Sorting yields an ordered permutation. */
  lemma {:induction false} SortedProperty(s: seq<Text>)
    ensures InOrder(Sorted(s)) && multiset(Sorted(s)) == multiset(s)
  {
    if s == [] {
    } else {
      SortedProperty(s[1..]);
      InsertPermutes(s[0], Sorted(s[1..]));
      InsertKeepsOrder(s[0], Sorted(s[1..]));
      assert s == [s[0]] + s[1..];
    }
  }

  lemma FirstIsLeast(s: seq<Text>, x: Text)
    requires InOrder(s) && x in s
    ensures Before(s[0], x)
  {
    BeforeTotal(x, x);
  }

  lemma SameFirst(a: seq<Text>, b: seq<Text>)
    requires InOrder(a) && InOrder(b) && multiset(a) == multiset(b) && a != [] && b != []
    ensures a[0] == b[0]
  {
    assert a[0] in multiset(b) && b[0] in multiset(a);
    FirstIsLeast(a, b[0]);
    FirstIsLeast(b, a[0]);
    BeforeAntisymmetric(a[0], b[0]);
  }

  lemma TailMultiset(s: seq<Text>)
    requires s != []
    ensures multiset(s[1..]) == multiset(s) - multiset{s[0]}
  {
    assert s == [s[0]] + s[1..];
  }

  /** Only one order of given texts is sorted. */
  lemma {:induction false} OrderIsUnique(a: seq<Text>, b: seq<Text>)
    requires InOrder(a) && InOrder(b) && multiset(a) == multiset(b)
    ensures a == b
  {
    assert |multiset(a)| == |a| && |multiset(b)| == |b|;
    if a == [] {
    } else {
      SameFirst(a, b);
      TailMultiset(a);
      TailMultiset(b);
      OrderIsUnique(a[1..], b[1..]);
      assert a == [a[0]] + a[1..] && b == [b[0]] + b[1..];
    }
  }

  function JoinTexts(parts: seq<Text>, separator: Unit): Text {
    if parts == [] then []
    else if |parts| == 1 then parts[0]
    else parts[0] + [separator] + JoinTexts(parts[1..], separator)
  }

  /** Where part `i` begins when each part is followed by a separator. */
  function Offset(parts: seq<Text>, i: nat): nat
    requires i <= |parts|
  {
    if i == 0 then 0 else Offset(parts, i - 1) + |parts[i - 1]| + 1
  }

  ghost predicate Holds(text: Text, at: int, unit: Unit) {
    0 <= at < |text| && text[at] == unit
  }

  /** The text holds the parts one after another, with a separator between any two. */
  ghost predicate IsJoined(text: Text, parts: seq<Text>, separator: Unit) {
    && |text| == (if parts == [] then 0 else Offset(parts, |parts|) - 1)
    && (forall i, k :: 0 <= i < |parts| && 0 <= k < |parts[i]| ==> Holds(text, Offset(parts, i) + k, parts[i][k]))
    && (forall i :: 0 < i < |parts| ==> Holds(text, Offset(parts, i) - 1, separator))
  }

  lemma {:induction false} OffsetOfRest(parts: seq<Text>, i: nat)
    requires 0 < i <= |parts|
    ensures Offset(parts, i) == |parts[0]| + 1 + Offset(parts[1..], i - 1)
  {
    if i == 1 {
      assert Offset(parts, 0) == 0;
    } else {
      OffsetOfRest(parts, i - 1);
    }
  }

  lemma {:induction false} JoinIsJoined(parts: seq<Text>, separator: Unit)
    ensures IsJoined(JoinTexts(parts, separator), parts, separator)
  {
    if parts == [] {
    } else if |parts| == 1 {
      assert Offset(parts, 1) == Offset(parts, 0) + |parts[0]| + 1;
    } else {
      JoinIsJoined(parts[1..], separator);
      JoinOneMore(parts, separator, JoinTexts(parts[1..], separator));
    }
  }

  lemma JoinOneMore(parts: seq<Text>, separator: Unit, rest: Text)
    requires |parts| > 1 && IsJoined(rest, parts[1..], separator)
    ensures IsJoined(parts[0] + [separator] + rest, parts, separator)
  {
    var text := parts[0] + [separator] + rest;
    OffsetOfRest(parts, |parts|);
    forall i, k | 0 <= i < |parts| && 0 <= k < |parts[i]|
      ensures Holds(text, Offset(parts, i) + k, parts[i][k])
    {
      if i > 0 {
        OffsetOfRest(parts, i);
        assert Holds(rest, Offset(parts[1..], i - 1) + k, parts[1..][i - 1][k]);
      }
    }
    forall i | 0 < i < |parts|
      ensures Holds(text, Offset(parts, i) - 1, separator)
    {
      OffsetOfRest(parts, i);
      if i > 1 {
        assert Holds(rest, Offset(parts[1..], i - 1) - 1, separator);
      } else {
        assert Offset(parts[1..], 0) == 0;
      }
    }
  }

  lemma {:induction false} PartAt(parts: seq<Text>, n: nat, at: nat) returns (i: nat)
    requires n <= |parts| && at < Offset(parts, n)
    ensures i < n && Offset(parts, i) <= at < Offset(parts, i) + |parts[i]| + 1
  {
    if at < Offset(parts, n - 1) {
      i := PartAt(parts, n - 1, at);
    } else {
      i := n - 1;
    }
  }

  lemma JoinedAgree(text: Text, other: Text, parts: seq<Text>, separator: Unit, at: nat)
    requires IsJoined(text, parts, separator) && IsJoined(other, parts, separator) && at < |text|
    ensures text[at] == other[at]
  {
    var i := PartAt(parts, |parts|, at);
    var k := at - Offset(parts, i);
    if k < |parts[i]| {
      assert Holds(text, Offset(parts, i) + k, parts[i][k]) && Holds(other, Offset(parts, i) + k, parts[i][k]);
    } else {
      assert at == Offset(parts, i + 1) - 1;
      assert Holds(text, Offset(parts, i + 1) - 1, separator) && Holds(other, Offset(parts, i + 1) - 1, separator);
    }
  }

  /** Only one text holds given parts. */
  lemma JoinedIsUnique(text: Text, parts: seq<Text>, separator: Unit)
    requires IsJoined(text, parts, separator)
    ensures text == JoinTexts(parts, separator)
  {
    var joined := JoinTexts(parts, separator);
    JoinIsJoined(parts, separator);
    forall at | 0 <= at < |text|
      ensures text[at] == joined[at]
    {
      JoinedAgree(text, joined, parts, separator, at);
    }
  }

  /** Texts without the separator, and not the list of just an empty text. */
  ghost predicate Separable(parts: seq<Text>, separator: Unit) {
    parts != [[]] && forall p :: p in parts ==> separator !in p
  }

  lemma SplitAtSeparator(c: Unit, a: Text, r: Text, b: Text, s: Text)
    requires c !in a && c !in b
    ensures a + [c] + r == b + [c] + s ==> a == b && r == s
    ensures a + [c] + r != b
  {
    var text := a + [c] + r;
    assert text[|a|] == c;
    if text == b + [c] + s {
      assert text[|b|] == c;
      assert forall i | 0 <= i < |a| :: text[i] == a[i];
      assert forall i | 0 <= i < |b| :: text[i] == b[i];
      assert |a| == |b|;
      assert a == text[..|a|] == b;
      assert r == text[|a| + 1..] == s;
    }
  }

  /** Joined texts are equal only if the lists are, but for an empty list and an empty text. */
  lemma {:induction false} JoinDetermines(p: seq<Text>, q: seq<Text>, separator: Unit)
    requires (forall x :: x in p ==> separator !in x) && (forall x :: x in q ==> separator !in x)
    requires (p == [] <==> q == []) && JoinTexts(p, separator) == JoinTexts(q, separator)
    ensures p == q
  {
    if p == [] {
    } else {
      var r, s := JoinTexts(p[1..], separator), JoinTexts(q[1..], separator);
      SplitAtSeparator(separator, p[0], r, q[0], s);
      SplitAtSeparator(separator, q[0], s, p[0], r);
      assert p == [p[0]] + p[1..] && q == [q[0]] + q[1..];
      if |p| > 1 && |q| > 1 {
        JoinDetermines(p[1..], q[1..], separator);
      }
    }
  }

  lemma JoinedIsEmpty(p: seq<Text>, separator: Unit)
    ensures JoinTexts(p, separator) == [] <==> p == [] || p == [[]]
  {
    if |p| == 1 {
      assert p == [p[0]];
    }
  }

  /** So the joined text determines the list. */
  lemma SameJoinExactlyWhen(p: seq<Text>, q: seq<Text>, separator: Unit)
    requires Separable(p, separator) && Separable(q, separator)
    ensures JoinTexts(p, separator) == JoinTexts(q, separator) <==> p == q
  {
    JoinedIsEmpty(p, separator);
    JoinedIsEmpty(q, separator);
    if JoinTexts(p, separator) == JoinTexts(q, separator) {
      JoinDetermines(p, q, separator);
    }
  }

  function ScopedKey(baseKey: string, permissions: seq<Text>): string {
    baseKey + ":perm:" + Numeral(HashValue(JoinTexts(Sorted(permissions), 124)), 36)
  }

  /** Sorts the caller's list in place, as the original does. */
  method WithPermissionScope(baseKey: string, permissions: array<Text>) returns (key: string)
    modifies permissions
    ensures permissions[..] == Sorted(old(permissions[..]))
    ensures key == ScopedKey(baseKey, old(permissions[..]))
  {
    SortInPlace(permissions);
    var hash := Hash(JoinTexts(permissions[..], 124));
    key := baseKey + ":perm:" + hash;
  }

  method SortInPlace(a: array<Text>)
    modifies a
    ensures a[..] == Sorted(old(a[..]))
  {
    var sorted := Sorted(a[..]);
    SortedProperty(a[..]);
    assert |multiset(sorted)| == |multiset(a[..])|;
    for i := 0 to a.Length
      invariant forall j :: 0 <= j < i ==> a[j] == sorted[j]
    {
      a[i] := sorted[i];
    }
  }

  /** Any reordering of the permission list gives the same key, and so does the list the
      call has left behind. */
  lemma ReorderingKeepsKey(baseKey: string, p: seq<Text>, q: seq<Text>)
    requires multiset(p) == multiset(q)
    ensures ScopedKey(baseKey, p) == ScopedKey(baseKey, q) == ScopedKey(baseKey, Sorted(p))
  {
    SortedProperty(p);
    SortedProperty(q);
    SortedProperty(Sorted(p));
    OrderIsUnique(Sorted(p), Sorted(q));
    OrderIsUnique(Sorted(p), Sorted(Sorted(p)));
  }

  lemma SameScope(b: string, m: string, c: string, n: string)
    requires b + ":perm:" + m == c + ":perm:" + n && ':' !in m && ':' !in n
    ensures b == c && m == n
  {
    var text := b + ":perm:" + m;
    assert text[|b| + 5] == ':' && text[|c| + 5] == ':';
    assert forall i | |b| + 5 < i < |text| :: text[i] == m[i - |b| - 6] && text[i] in m;
    assert forall i | |c| + 5 < i < |text| :: text[i] == n[i - |c| - 6] && text[i] in n;
    assert |b| == |c|;
    assert b == text[..|b|] == c && m == text[|b| + 6..] == n;
  }

  /** Two scoped keys are equal exactly when the base keys are and the hashes of the two sorted
      lists agree, the texts that are hashed being the sorted permissions with '|' between. */
  lemma SameScopedKeyExactlyWhen(b: string, p: seq<Text>, x: Text, sortedP: seq<Text>,
                                 c: string, q: seq<Text>, y: Text, sortedQ: seq<Text>)
    requires InOrder(sortedP) && multiset(sortedP) == multiset(p) && IsJoined(x, sortedP, 124)
    requires InOrder(sortedQ) && multiset(sortedQ) == multiset(q) && IsJoined(y, sortedQ, 124)
    ensures ScopedKey(b, p) == ScopedKey(c, q)
            <==> b == c
                 && ((Polynomial(x) - Polynomial(y)) % TWO_32 == 0 || (Polynomial(x) + Polynomial(y)) % TWO_32 == 0)
  {
    SortedProperty(p);
    SortedProperty(q);
    OrderIsUnique(sortedP, Sorted(p));
    OrderIsUnique(sortedQ, Sorted(q));
    JoinedIsUnique(x, sortedP, 124);
    JoinedIsUnique(y, sortedQ, 124);
    SameHashExactlyWhen(x, y);
    NumeralExactly(HashValue(x), 36);
    NumeralExactly(HashValue(y), 36);
    if ScopedKey(b, p) == ScopedKey(c, q) {
      SameScope(b, Numeral(HashValue(x), 36), c, Numeral(HashValue(y), 36));
    }
  }
}
