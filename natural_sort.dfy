/**
 * The "natural" ordering `sorted_nicely` gives to directory listings: a
 * name is cut into alternating runs of non-digits and digits, digit runs
 * compare by their value, and `sorted` keeps names with equal keys in
 * their input order.
 */
module NaturalSort {
  import opened Text

  // =====================================================================
  // `re.split('([0-9]+)', s)`
  // =====================================================================

  predicate NotDigit(c: char) {
    !IsDigit(c)
  }

  predicate NoDigit(s: string) {
    forall i :: 0 <= i < |s| ==> !IsDigit(s[i])
  }

  /**
   * The shape of `re.split('([0-9]+)', s)`: an odd number of pieces, text
   * without digits at even positions, non-empty digit runs at odd
   * positions, and text between two digit runs that is never empty
   * (the digit runs are maximal).
   */
  predicate Alternating(parts: seq<string>) {
    && |parts| % 2 == 1
    && (forall j :: 0 <= j < |parts| && j % 2 == 0 ==> NoDigit(parts[j]))
    && (forall j :: 0 <= j < |parts| && j % 2 == 1 ==> parts[j] != [] && AllDigits(parts[j]))
    && (forall j :: 0 < j < |parts| - 1 && j % 2 == 0 ==> parts[j] != [])
  }

  /** The pieces joined back together. */
  function Concat(parts: seq<string>): string {
    if parts == [] then [] else parts[0] + Concat(parts[1..])
  }

  /** `re.split('([0-9]+)', s)`: text before the first digit run, the run, and the split of the rest. */
  function SplitDigits(s: string): (parts: seq<string>)
    ensures Alternating(parts)
    ensures |parts[0]| == SpanLen(s, NotDigit)
    ensures s == [] ==> |parts| == 1
    decreases |s|
  {
    var t := SpanLen(s, NotDigit);
    if t == |s| then [s]
    else
      var rest := s[t..];
      var d := SpanLen(rest, IsDigit);
      var tail := SplitDigits(rest[d..]);
      AlternatingCons(s[..t], rest[..d], tail);
      [s[..t], rest[..d]] + tail
  }

  lemma AlternatingCons(a: string, b: string, tail: seq<string>)
    requires NoDigit(a) && b != [] && AllDigits(b)
    requires Alternating(tail) && (tail[0] == [] ==> |tail| == 1)
    ensures Alternating([a, b] + tail)
  {
    var parts := [a, b] + tail;
    forall j | 2 <= j < |parts|
      ensures parts[j] == tail[j - 2]
    {
    }
  }

  /** The pieces of the split put back together give the name again. */
  lemma {:induction false} SplitDigitsConcat(s: string)
    ensures Concat(SplitDigits(s)) == s
    decreases |s|
  {
    var t := SpanLen(s, NotDigit);
    if t == |s| {
      assert SplitDigits(s) == [s];
      assert Concat([s]) == s + Concat([]);
    } else {
      var rest := s[t..];
      SplitDigitsConcat(rest[SpanLen(rest, IsDigit)..]);
      ConcatStep(s);
    }
  }

  /** The step of `SplitDigitsConcat`: if the split of what follows the first digit run joins back, so does the split of `s`. */
  lemma ConcatStep(s: string)
    requires SpanLen(s, NotDigit) < |s|
    requires var t := SpanLen(s, NotDigit);
      Concat(SplitDigits(s[t..][SpanLen(s[t..], IsDigit)..])) == s[t..][SpanLen(s[t..], IsDigit)..]
    ensures Concat(SplitDigits(s)) == s
  {
    var t := SpanLen(s, NotDigit);
    var rest := s[t..];
    var d := SpanLen(rest, IsDigit);
    var u := rest[d..];
    SplitDigitsStep(s);
    JoinBack(s, t, d, SplitDigits(s), SplitDigits(u));
  }

  lemma JoinBack(s: string, t: nat, d: nat, parts: seq<string>, tail: seq<string>)
    requires t <= |s| && d <= |s| - t
    requires parts == [s[..t], s[t..][..d]] + tail
    requires Concat(tail) == s[t..][d..]
    ensures Concat(parts) == s
  {
    var rest := s[t..];
    ConcatOfCons2(s[..t], rest[..d], tail);
    assert rest[..d] + rest[d..] == rest;
    assert s[..t] + rest == s;
  }

  /** One step of the split: the text before the first digit, the digit run, and the split of the rest. */
  lemma SplitDigitsStep(s: string)
    requires SpanLen(s, NotDigit) < |s|
    ensures var t := SpanLen(s, NotDigit);
      var d := SpanLen(s[t..], IsDigit);
      SplitDigits(s) == [s[..t], s[t..][..d]] + SplitDigits(s[t..][d..])
  {
  }


  /** The split is the only alternating decomposition of a name. */
  lemma {:induction false} SplitDigitsUnique(parts: seq<string>)
    requires Alternating(parts)
    ensures SplitDigits(Concat(parts)) == parts
    decreases |parts|
  {
    var a := parts[0];
    if |parts| == 1 {
      assert Concat(parts) == a + Concat([]);
      SpanLenOfRun(a, [], NotDigit);
      assert a + [] == a;
    } else {
      var r := parts[2..];
      ConcatCons2(parts);
      AlternatingTail(parts);
      ConcatStartsWith(r);
      SplitDigitsOfCons(a, parts[1], Concat(r));
      SplitDigitsUnique(r);
      assert parts == [a, parts[1]] + r;
    }
  }

  lemma ConcatOfCons2(a: string, b: string, tail: seq<string>)
    ensures Concat([a, b] + tail) == a + (b + Concat(tail))
  {
    ConcatCons2([a, b] + tail);
    assert ([a, b] + tail)[2..] == tail;
  }

  lemma ConcatCons2(parts: seq<string>)
    requires |parts| >= 2
    ensures Concat(parts) == parts[0] + (parts[1] + Concat(parts[2..]))
  {
    assert parts[1..][1..] == parts[2..];
  }

  /** Dropping the first text piece and digit run of an alternating list leaves an alternating list. */
  lemma AlternatingTail(parts: seq<string>)
    requires Alternating(parts) && |parts| >= 2
    ensures Alternating(parts[2..]) && (|parts[2..]| == 1 || parts[2..][0] != [])
  {
    var r := parts[2..];
    forall j | 0 <= j < |r|
      ensures r[j] == parts[j + 2]
    {
    }
    assert |parts| > 3 ==> parts[2] != [];
  }

  /** Text without digits, then a digit run, then anything not starting with a digit: the split takes the first two pieces off. */
  lemma SplitDigitsOfCons(a: string, b: string, rest: string)
    requires NoDigit(a) && b != [] && AllDigits(b)
    requires rest == [] || !IsDigit(rest[0])
    ensures SplitDigits(a + (b + rest)) == [a, b] + SplitDigits(rest)
  {
    var s := a + (b + rest);
    assert b[0] == (b + rest)[0];
    SpanLenOfRun(a, b + rest, NotDigit);
    assert s[..|a|] == a;
    assert s[|a|..] == b + rest;
    SpanLenOfRun(b, rest, IsDigit);
    assert (b + rest)[..|b|] == b;
    assert (b + rest)[|b|..] == rest;
  }

  /** An alternating list of pieces that does not end right away starts with its first text piece's first character. */
  lemma ConcatStartsWith(r: seq<string>)
    requires Alternating(r) && (|r| == 1 || r[0] != [])
    ensures Concat(r) == [] || !IsDigit(Concat(r)[0])
  {
    if r[0] == [] {
      assert r[1..] == [];
      assert Concat(r) == [] + Concat([]);
    } else {
      assert Concat(r)[0] == r[0][0];
    }
  }

  // =====================================================================
  // Keys
  // =====================================================================

  /** One element of a sort key: `convert` gives a string or an `int`. */
  datatype Chunk = Str(text: string) | Num(value: nat)

  /** `convert`: `int(text)` for a piece made only of digits, the text itself otherwise. */
  function Convert(piece: string): Chunk {
    if piece != [] && AllDigits(piece) then Num(DigitsValue(piece)) else Str(piece)
  }

  function ConvertAll(parts: seq<string>): (key: seq<Chunk>)
    ensures |key| == |parts|
    ensures forall j :: 0 <= j < |parts| ==> key[j] == Convert(parts[j])
  {
    if parts == [] then [] else [Convert(parts[0])] + ConvertAll(parts[1..])
  }

  /** `alphanum_key`. */
  function Key(name: string): seq<Chunk> {
    ConvertAll(SplitDigits(name))
  }

  /** A key has odd length and alternates text and numbers, starting and ending with text. */
  lemma KeyAlternates(name: string)
    ensures |Key(name)| % 2 == 1
    ensures forall j :: 0 <= j < |Key(name)| ==> (Key(name)[j].Str? <==> j % 2 == 0)
  {
    var parts := SplitDigits(name);
    forall j | 0 <= j < |parts|
      ensures Key(name)[j].Str? <==> j % 2 == 0
    {
      if j % 2 == 0 && parts[j] != [] {
        assert !IsDigit(parts[j][0]);
      }
    }
  }

  // =====================================================================
  // Comparison
  // =====================================================================

  /** Python's ordering of two lists (or strings): the first differing position decides, and a proper prefix is smaller. */
  function Lex<T(==)>(a: seq<T>, b: seq<T>, less: (T, T) -> bool): bool
    decreases |a|
  {
    if a == [] then b != []
    else if b == [] then false
    else if a[0] != b[0] then less(a[0], b[0])
    else Lex(a[1..], b[1..], less)
  }

  ghost predicate Transitive<T(!new)>(less: (T, T) -> bool) {
    forall x, y, z :: less(x, y) && less(y, z) ==> less(x, z)
  }

  ghost predicate Irreflexive<T(!new)>(less: (T, T) -> bool) {
    forall x :: !less(x, x)
  }

  /** The lexicographic order over a strict order is a strict order. */
  lemma {:induction false} LexTransitive<T(!new)>(a: seq<T>, b: seq<T>, c: seq<T>, less: (T, T) -> bool)
    requires Transitive(less) && Irreflexive(less)
    requires Lex(a, b, less) && Lex(b, c, less)
    ensures Lex(a, c, less)
    decreases |a|
  {
    if a != [] && b != [] && c != [] && a[0] == b[0] && b[0] == c[0] {
      LexTransitive(a[1..], b[1..], c[1..], less);
    }
  }

  lemma {:induction false} LexIrreflexive<T(!new)>(a: seq<T>, less: (T, T) -> bool)
    requires Irreflexive(less)
    ensures !Lex(a, a, less)
    decreases |a|
  {
    if a != [] {
      LexIrreflexive(a[1..], less);
    }
  }

  predicate CharLess(x: char, y: char) {
    x < y
  }

  /** `<` between two key elements; text is put before numbers, a case the keys never reach. */
  predicate ChunkLess(x: Chunk, y: Chunk) {
    match (x, y)
    case (Str(s), Str(t)) => Lex(s, t, CharLess)
    case (Num(m), Num(n)) => m < n
    case (Str(_), Num(_)) => true
    case (Num(_), Str(_)) => false
  }

  lemma ChunkLessIsStrictOrder()
    ensures Transitive(ChunkLess) && Irreflexive(ChunkLess)
  {
    forall x: Chunk, y: Chunk, z: Chunk | ChunkLess(x, y) && ChunkLess(y, z)
      ensures ChunkLess(x, z)
    {
      if x.Str? && y.Str? && z.Str? {
        LexTransitive(x.text, y.text, z.text, CharLess);
      }
    }
    forall x: Chunk
      ensures !ChunkLess(x, x)
    {
      if x.Str? {
        LexIrreflexive(x.text, CharLess);
      }
    }
  }

  /** Two keys in the order Python compares the key lists. */
  predicate Before(a: seq<Chunk>, b: seq<Chunk>) {
    Lex(a, b, ChunkLess)
  }

  lemma BeforeTransitive(a: seq<Chunk>, b: seq<Chunk>, c: seq<Chunk>)
    requires Before(a, b) && Before(b, c)
    ensures Before(a, c)
  {
    ChunkLessIsStrictOrder();
    LexTransitive(a, b, c, ChunkLess);
  }

  lemma BeforeIrreflexive(a: seq<Chunk>)
    ensures !Before(a, a)
  {
    ChunkLessIsStrictOrder();
    LexIrreflexive(a, ChunkLess);
  }

  /** A name made of a digit-free prefix and a number has the key text, number, empty text. */
  lemma KeyOfNumbered(prefix: string, n: nat)
    requires NoDigit(prefix)
    ensures Key(prefix + NatToString(n)) == [Str(prefix), Num(n), Str("")]
  {
    var parts := [prefix, NatToString(n), ""];
    NumberedParts(prefix, n);
    SplitDigitsUnique(parts);
    ConvertNumbered(prefix, n);
  }

  lemma NumberedParts(prefix: string, n: nat)
    requires NoDigit(prefix)
    ensures Alternating([prefix, NatToString(n), ""])
    ensures Concat([prefix, NatToString(n), ""]) == prefix + NatToString(n)
  {
    var parts := [prefix, NatToString(n), ""];
    assert parts[1..] == [NatToString(n), ""];
    assert parts[1..][1..] == [""];
    assert Concat([""]) == "" + Concat([]);
    assert NatToString(n) + "" == NatToString(n);
  }

  lemma ConvertNumbered(prefix: string, n: nat)
    requires NoDigit(prefix)
    ensures ConvertAll([prefix, NatToString(n), ""]) == [Str(prefix), Num(n), Str("")]
  {
    NatToStringValue(n);
    if prefix != [] {
      assert !IsDigit(prefix[0]);
    }
    var key := ConvertAll([prefix, NatToString(n), ""]);
    assert key[0] == Str(prefix) && key[1] == Num(n) && key[2] == Str("");
  }


  /** Names that differ only in a trailing number sort by that number: `1, 11, 100` in that order. */
  lemma NumberedNamesOrder(prefix: string, m: nat, n: nat)
    requires NoDigit(prefix)
    ensures Before(Key(prefix + NatToString(m)), Key(prefix + NatToString(n))) <==> m < n
  {
    KeyOfNumbered(prefix, m);
    KeyOfNumbered(prefix, n);
    var a := [Str(prefix), Num(m), Str("")];
    var b := [Str(prefix), Num(n), Str("")];
    if m == n {
      BeforeIrreflexive(a);
    } else {
      assert a[0] == b[0] && a[1..] == [Num(m), Str("")] && b[1..] == [Num(n), Str("")];
      assert Lex(a, b, ChunkLess) == Lex(a[1..], b[1..], ChunkLess);
      assert Lex(a[1..], b[1..], ChunkLess) == ChunkLess(Num(m), Num(n));
    }
  }


  /** The example of the docstring: `1`, `11` and `100` sort in that order. */
  lemma DocstringOrder()
    ensures Before(Key("1"), Key("11")) && Before(Key("11"), Key("100"))
    ensures !Before(Key("100"), Key("11"))
  {
    assert NatToString(1) == "1" && NatToString(11) == "11" && NatToString(100) == "100";
    assert "" + "1" == "1" && "" + "11" == "11" && "" + "100" == "100";
    NumberedNamesOrder("", 1, 11);
    NumberedNamesOrder("", 11, 100);
    NumberedNamesOrder("", 100, 11);
  }

  // =====================================================================
  // `sorted(names, key=alphanum_key)`
  // =====================================================================

  /** Places `x` after every element whose key does not come after its own. */
  function Insert(x: string, s: seq<string>, key: string -> seq<Chunk>): (r: seq<string>)
    ensures |r| == |s| + 1
    ensures multiset(r) == multiset(s) + multiset{x}
  {
    if s == [] then [x]
    else if Before(key(x), key(s[0])) then [x] + s
    else
      assert s == [s[0]] + s[1..];
      [s[0]] + Insert(x, s[1..], key)
  }

  /** Python's stable `sorted(names, key=key)`, as an insertion sort that inserts each name after its equals. */
  function SortBy(names: seq<string>, key: string -> seq<Chunk>): (r: seq<string>)
    ensures |r| == |names|
  {
    if names == [] then []
    else Insert(names[|names| - 1], SortBy(names[..|names| - 1], key), key)
  }

  /** `sorted_nicely`. */
  function SortedNicely(names: seq<string>): seq<string> {
    SortBy(names, Key)
  }

  /** No later element has a key before an earlier one's. */
  predicate SortedBy(s: seq<string>, key: string -> seq<Chunk>) {
    forall i, j :: 0 <= i < j < |s| ==> !Before(key(s[j]), key(s[i]))
  }

  lemma {:induction false} InsertSorted(x: string, s: seq<string>, key: string -> seq<Chunk>)
    requires SortedBy(s, key)
    ensures SortedBy(Insert(x, s, key), key)
    decreases |s|
  {
    if s == [] {
    } else if Before(key(x), key(s[0])) {
      KeysNotBefore(key(x), s, key);
      ConsSorted(x, s, key);
    } else {
      var t := Insert(x, s[1..], key);
      SortedTail(s, key);
      InsertSorted(x, s[1..], key);
      forall j | 0 <= j < |t|
        ensures !Before(key(t[j]), key(s[0]))
      {
        InsertedFrom(x, s[1..], key, j);
        if t[j] != x {
          var k: int :| 0 <= k < |s[1..]| && s[1..][k] == t[j];
          assert s[k + 1] == t[j];
        }
      }
      ConsSorted(s[0], t, key);
    }
  }

  /** Every element of `Insert(x, s)` is `x` or an element of `s`. */
  lemma InsertedFrom(x: string, s: seq<string>, key: string -> seq<Chunk>, j: int)
    requires 0 <= j < |Insert(x, s, key)|
    ensures Insert(x, s, key)[j] == x || exists k :: 0 <= k < |s| && s[k] == Insert(x, s, key)[j]
  {
    var t := Insert(x, s, key);
    assert t[j] in multiset(t);
    if t[j] != x {
      assert t[j] in multiset(s);
    }
  }

  lemma SortedTail(s: seq<string>, key: string -> seq<Chunk>)
    requires SortedBy(s, key) && s != []
    ensures SortedBy(s[1..], key)
  {
    forall i, j | 0 <= i < j < |s| - 1
      ensures !Before(key(s[1..][j]), key(s[1..][i]))
    {
      assert s[1..][i] == s[i + 1] && s[1..][j] == s[j + 1];
    }
  }

  /** No key of a sorted list comes before a key that comes before the list's first key. */
  lemma KeysNotBefore(k: seq<Chunk>, s: seq<string>, key: string -> seq<Chunk>)
    requires SortedBy(s, key) && s != [] && Before(k, key(s[0]))
    ensures forall j :: 0 <= j < |s| ==> !Before(key(s[j]), k)
  {
    forall j | 0 <= j < |s|
      ensures !Before(key(s[j]), k)
    {
      if j > 0 {
        assert !Before(key(s[j]), key(s[0]));
      }
      if Before(key(s[j]), k) {
        BeforeTransitive(key(s[j]), k, key(s[0]));
        BeforeIrreflexive(key(s[0]));
      }
    }
  }

  /** A name whose key no later key comes before, put in front of a sorted list, keeps it sorted. */
  lemma ConsSorted(y: string, t: seq<string>, key: string -> seq<Chunk>)
    requires SortedBy(t, key)
    requires forall j :: 0 <= j < |t| ==> !Before(key(t[j]), key(y))
    ensures SortedBy([y] + t, key)
  {
    var r := [y] + t;
    forall i, j | 0 <= i < j < |r|
      ensures !Before(key(r[j]), key(r[i]))
    {
      assert r[j] == t[j - 1];
      if i > 0 {
        assert r[i] == t[i - 1];
      }
    }
  }


  lemma {:induction false} SortByIsSorted(names: seq<string>, key: string -> seq<Chunk>)
    ensures SortedBy(SortBy(names, key), key)
  {
    if names != [] {
      SortByIsSorted(names[..|names| - 1], key);
      InsertSorted(names[|names| - 1], SortBy(names[..|names| - 1], key), key);
    }
  }

  lemma {:induction false} SortByPermutes(names: seq<string>, key: string -> seq<Chunk>)
    ensures multiset(SortBy(names, key)) == multiset(names)
  {
    if names != [] {
      var init := names[..|names| - 1];
      SortByPermutes(init, key);
      assert names == init + [names[|names| - 1]];
    }
  }

  // =====================================================================
  // Stability
  // =====================================================================

  /** The names whose key equals `k`, in order. */
  function WithKey(s: seq<string>, key: string -> seq<Chunk>, k: seq<Chunk>): seq<string> {
    if s == [] then []
    else (if key(s[0]) == k then [s[0]] else []) + WithKey(s[1..], key, k)
  }

  lemma {:induction false} WithKeyConcat(a: seq<string>, b: seq<string>, key: string -> seq<Chunk>, k: seq<Chunk>)
    ensures WithKey(a + b, key, k) == WithKey(a, key, k) + WithKey(b, key, k)
    decreases |a|
  {
    if a == [] {
      assert a + b == b;
    } else {
      assert (a + b)[0] == a[0];
      assert (a + b)[1..] == a[1..] + b;
      WithKeyConcat(a[1..], b, key, k);
    }
  }

  lemma {:induction false} InsertOtherKey(x: string, s: seq<string>, key: string -> seq<Chunk>, k: seq<Chunk>)
    requires key(x) != k
    ensures WithKey(Insert(x, s, key), key, k) == WithKey(s, key, k)
    decreases |s|
  {
    if s == [] {
      assert WithKey([x], key, k) == [] + WithKey([], key, k);
    } else if Before(key(x), key(s[0])) {
      assert ([x] + s)[1..] == s;
    } else {
      InsertOtherKey(x, s[1..], key, k);
      assert ([s[0]] + Insert(x, s[1..], key))[1..] == Insert(x, s[1..], key);
    }
  }

  lemma {:induction false} NoneWithKey(s: seq<string>, key: string -> seq<Chunk>, k: seq<Chunk>)
    requires forall i :: 0 <= i < |s| ==> key(s[i]) != k
    ensures WithKey(s, key, k) == []
    decreases |s|
  {
    if s != [] {
      NoneWithKey(s[1..], key, k);
    }
  }

  /** No name of a sorted list has a key that comes before the list's first key. */
  lemma KeysAfter(k: seq<Chunk>, s: seq<string>, key: string -> seq<Chunk>)
    requires SortedBy(s, key) && s != [] && Before(k, key(s[0]))
    ensures forall i :: 0 <= i < |s| ==> key(s[i]) != k
  {
    forall i | 0 <= i < |s|
      ensures key(s[i]) != k
    {
      if i > 0 {
        assert !Before(key(s[i]), key(s[0]));
      } else {
        BeforeIrreflexive(k);
      }
    }
  }

  lemma WithKeyCons(y: string, t: seq<string>, key: string -> seq<Chunk>, k: seq<Chunk>)
    ensures WithKey([y] + t, key, k) == (if key(y) == k then [y] else []) + WithKey(t, key, k)
  {
    assert ([y] + t)[1..] == t;
  }

  /** A name put in front of a sorted list whose keys all come after its own is the only one with its key. */
  lemma FrontSameKey(x: string, s: seq<string>, key: string -> seq<Chunk>)
    requires SortedBy(s, key) && s != [] && Before(key(x), key(s[0]))
    ensures WithKey([x] + s, key, key(x)) == WithKey(s, key, key(x)) + [x]
  {
    KeysAfter(key(x), s, key);
    NoneWithKey(s, key, key(x));
    WithKeyCons(x, s, key, key(x));
  }

  lemma InsertLater(x: string, s: seq<string>, key: string -> seq<Chunk>)
    requires s != [] && !Before(key(x), key(s[0]))
    ensures Insert(x, s, key) == [s[0]] + Insert(x, s[1..], key)
  {
  }

  lemma AppendUnderCons(y: string, s: seq<string>, t: seq<string>, x: string, key: string -> seq<Chunk>, k: seq<Chunk>)
    requires WithKey(t, key, k) == WithKey(s, key, k) + [x]
    ensures WithKey([y] + t, key, k) == WithKey([y] + s, key, k) + [x]
  {
    WithKeyCons(y, t, key, k);
    WithKeyCons(y, s, key, k);
  }

  /** Inserting into a sorted list puts `x` after the names sharing its key. */
  lemma {:induction false} InsertSameKey(x: string, s: seq<string>, key: string -> seq<Chunk>)
    requires SortedBy(s, key)
    ensures WithKey(Insert(x, s, key), key, key(x)) == WithKey(s, key, key(x)) + [x]
    decreases |s|
  {
    var k := key(x);
    if s == [] {
      assert WithKey([x], key, k) == [x] + WithKey([], key, k);
    } else if Before(k, key(s[0])) {
      assert Insert(x, s, key) == [x] + s;
      FrontSameKey(x, s, key);
    } else {
      SortedTail(s, key);
      InsertSameKey(x, s[1..], key);
      InsertLater(x, s, key);
      AppendUnderCons(s[0], s[1..], Insert(x, s[1..], key), x, key, k);
      assert [s[0]] + s[1..] == s;
    }
  }

  lemma WithKeySnoc(init: seq<string>, x: string, key: string -> seq<Chunk>, k: seq<Chunk>)
    ensures WithKey(init + [x], key, k) == WithKey(init, key, k) + (if key(x) == k then [x] else [])
  {
    WithKeyConcat(init, [x], key, k);
    assert WithKey([x], key, k) == (if key(x) == k then [x] else []) + WithKey([], key, k);
  }

  /** `sorted` is stable: names with equal keys keep their input order. */
  lemma {:induction false} SortByStable(names: seq<string>, key: string -> seq<Chunk>, k: seq<Chunk>)
    ensures WithKey(SortBy(names, key), key, k) == WithKey(names, key, k)
  {
    if names != [] {
      var init := names[..|names| - 1];
      var x := names[|names| - 1];
      var sorted := SortBy(init, key);
      assert names == init + [x];
      WithKeySnoc(init, x, key, k);
      SortByStable(init, key, k);
      if key(x) == k {
        SortByIsSorted(init, key);
        InsertSameKey(x, sorted, key);
      } else {
        InsertOtherKey(x, sorted, key, k);
      }
    }
  }

  /**
   * `sorted_nicely` returns a rearrangement of its input, ordered by the
   * natural key, with names of equal key in their input order.
   */
  lemma SortedNicelyProperties(names: seq<string>, k: seq<Chunk>)
    ensures multiset(SortedNicely(names)) == multiset(names)
    ensures SortedBy(SortedNicely(names), Key)
    ensures WithKey(SortedNicely(names), Key, k) == WithKey(names, Key, k)
  {
    SortByPermutes(names, Key);
    SortByIsSorted(names, Key);
    SortByStable(names, Key, k);
  }
}
