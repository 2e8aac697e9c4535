/**
 * The order in which `merge_pdfs_in_directory` merges the selected PDF
 * files: `list.sort` with the key "the integer spelled by all digits of the
 * name, or the name itself when it has no digit".
 *
 * Python's `list.sort` is stable, and a stable sort by a key has exactly
 * one possible result, so the sort is specified here by a reference
 * insertion sort (`SortByKey`) and implemented in place on an array by the
 * same insertion.
 */
module PdfOrdering {
  import opened Seqs

  /** `str.isdigit`, on the ASCII digits. */
  predicate IsDigit(c: char)
  {
    '0' <= c <= '9'
  }

  predicate HasDigit(s: string)
  {
    exists i :: 0 <= i < |s| && IsDigit(s[i])
  }

  /** `"".join(filter(str.isdigit, s))`: the digits of `s`, left to right. */
  function Digits(s: string): (r: string)
    ensures forall i :: 0 <= i < |r| ==> IsDigit(r[i])
    ensures |r| <= |s|
    ensures r == [] <==> !HasDigit(s)
  {
    if s == [] then []
    else if IsDigit(Last(s)) then Digits(Init(s)) + [Last(s)]
    else
      assert HasDigit(s) ==> HasDigit(Init(s)) by {
        if HasDigit(s) {
          var i :| 0 <= i < |s| && IsDigit(s[i]);
          assert Init(s)[i] == s[i];
        }
      }
      Digits(Init(s))
  }

  /** The digits of a concatenation are the digits of each part, in order. */
  lemma {:induction false} DigitsAppend(a: string, b: string)
    ensures Digits(a + b) == Digits(a) + Digits(b)
  {
    if b == [] {
      assert a + b == a;
    } else {
      assert Init(a + b) == a + Init(b);
      assert Last(a + b) == Last(b);
      DigitsAppend(a, Init(b));
    }
  }

  function Pow10(n: nat): (r: nat)
    ensures r >= 1
  {
    if n == 0 then 1 else 10 * Pow10(n - 1)
  }

  /** The value of one decimal digit (a character that is not a digit never reaches it). */
  function DigitValue(c: char): (d: nat)
    ensures d < 10
    ensures IsDigit(c) ==> d == (c as int) - ('0' as int)
  {
    if IsDigit(c) then (c as int) - ('0' as int) else 0
  }

  /**
   * `int(ds)` for a string of decimal digits (leading zeros allowed). The
   * key only applies it to `Digits(name)`.
   */
  function DecimalValue(ds: string): (r: nat)
    ensures r < Pow10(|ds|)
  {
    if ds == [] then 0
    else
      var v := DecimalValue(Init(ds));
      var d := DigitValue(Last(ds));
      assert v * 10 + d < Pow10(|ds|) by {
        assert v + 1 <= Pow10(|ds| - 1);
        assert (v + 1) * 10 <= Pow10(|ds| - 1) * 10;
      }
      v * 10 + d
  }

  /** Reading digits left to right: the value of `a + b` shifts `a` past the digits of `b`. */
  lemma {:induction false} DecimalValueAppend(a: string, b: string)
    ensures DecimalValue(a + b) == DecimalValue(a) * Pow10(|b|) + DecimalValue(b)
  {
    if b == [] {
      assert a + b == a;
    } else {
      var ab := a + b;
      assert Init(ab) == a + Init(b);
      assert Last(ab) == Last(b);
      DecimalValueAppend(a, Init(b));
      var va, vb, d := DecimalValue(a), DecimalValue(Init(b)), DigitValue(Last(b));
      var p, q := Pow10(|Init(b)|), Pow10(|b|);
      assert DecimalValue(ab) == DecimalValue(Init(ab)) * 10 + d;
      assert DecimalValue(b) == vb * 10 + d;
      ShiftDigits(va, vb, p, q, d);
    }
  }

  lemma ShiftDigits(va: int, vb: int, p: int, q: int, d: int)
    requires q == 10 * p
    ensures (va * p + vb) * 10 + d == va * q + (vb * 10 + d)
  {
  }

  /** A sort key: an `int` for a name with digits, the name (a `str`) otherwise. */
  datatype SortKey = IntKey(n: nat) | StrKey(s: string)

  /** The key lambda of the sort. */
  function Key(name: string): (k: SortKey)
    ensures k.IntKey? <==> HasDigit(name)
    ensures k.StrKey? ==> k.s == name
  {
    if HasDigit(name) then IntKey(DecimalValue(Digits(name))) else StrKey(name)
  }

  /** A run of digits keeps all its characters. */
  lemma {:induction false} DigitsOfDigitRun(s: string)
    requires forall i :: 0 <= i < |s| ==> IsDigit(s[i])
    ensures Digits(s) == s
  {
    if s != [] {
      assert IsDigit(s[|s| - 1]);
      DigitsOfDigitRun(Init(s));
    }
  }

  /** A name without digits has no digits to keep. */
  lemma NoDigits(s: string)
    requires forall i :: 0 <= i < |s| ==> !IsDigit(s[i])
    ensures Digits(s) == []
  {
  }

  /** Digits scattered between letters are collected in order. */
  lemma DigitsBetweenLetters(a: string, b: string, c: string, d: string, e: string)
    requires forall i :: 0 <= i < |a| ==> !IsDigit(a[i])
    requires forall i :: 0 <= i < |c| ==> !IsDigit(c[i])
    requires forall i :: 0 <= i < |e| ==> !IsDigit(e[i])
    requires forall i :: 0 <= i < |b| ==> IsDigit(b[i])
    requires forall i :: 0 <= i < |d| ==> IsDigit(d[i])
    ensures Digits(a + b + c + d + e) == b + d
  {
    NoDigits(a); NoDigits(c); NoDigits(e);
    DigitsOfDigitRun(b);
    DigitsOfDigitRun(d);
    var ab := a + b;
    DigitsAppend(a, b);
    assert Digits(ab) == b;
    var abc := ab + c;
    DigitsAppend(ab, c);
    assert Digits(abc) == b;
    var abcd := abc + d;
    DigitsAppend(abc, d);
    assert Digits(abcd) == b + d;
    DigitsAppend(abcd, e);
  }

  lemma DigitsExample()
    ensures Digits("case12_v3.pdf") == "123"
  {
    DigitsBetweenLetters("case", "12", "_v", "3", ".pdf");
    assert "case12_v3.pdf" == "case" + "12" + "_v" + "3" + ".pdf";
    assert "12" + "3" == "123";
  }

  lemma KeyOfNoDigitExample()
    ensures Key("intro.pdf") == StrKey("intro.pdf")
  {
    var a, b := "intro", ".pdf";
    assert forall i :: 0 <= i < |a| ==> !IsDigit(a[i]);
    assert forall i :: 0 <= i < |b| ==> !IsDigit(b[i]);
    assert "intro.pdf" == a + b;
    NoDigitsAppend(a, b);
  }

  /** A name made of two digit-free parts has no digit. */
  lemma NoDigitsAppend(a: string, b: string)
    requires forall i :: 0 <= i < |a| ==> !IsDigit(a[i])
    requires forall i :: 0 <= i < |b| ==> !IsDigit(b[i])
    ensures !HasDigit(a + b)
  {
    forall i | 0 <= i < |a + b| ensures !IsDigit((a + b)[i]) {
      if i >= |a| {
        assert (a + b)[i] == b[i - |a|];
      }
    }
  }

  lemma DecimalExample()
    ensures DecimalValue("123") == 123
  {
    var s := "123";
    assert Init(s) == "12" && Last(s) == '3';
    assert Init("12") == "1" && Last("12") == '2';
    assert Init("1") == "" && Last("1") == '1';
  }

  /** The key is the value of all the digits of the name, read left to right. */
  lemma KeyExample()
    ensures Key("case12_v3.pdf") == IntKey(123)
    ensures Key("intro.pdf") == StrKey("intro.pdf")
  {
    DigitsExample();
    DecimalExample();
    KeyOfNoDigitExample();
  }

  /** Python's `<` on `str`: code-point lexicographic order. */
  predicate StrLess(x: string, y: string)
  {
    if x == [] then y != []
    else if y == [] then false
    else if x[0] != y[0] then x[0] < y[0]
    else StrLess(x[1..], y[1..])
  }

  lemma {:induction false} StrLessTrichotomy(x: string, y: string)
    ensures StrLess(x, y) || x == y || StrLess(y, x)
    ensures !(StrLess(x, y) && StrLess(y, x))
    ensures !StrLess(x, x)
  {
    if x != [] && y != [] && x[0] == y[0] {
      StrLessTrichotomy(x[1..], y[1..]);
      if x[1..] == y[1..] {
        assert x == [x[0]] + x[1..] && y == [y[0]] + y[1..];
      }
    }
    if x != [] {
      StrLessTrichotomy(x[1..], x[1..]);
    }
  }

  lemma {:induction false} StrLessTransitive(x: string, y: string, z: string)
    requires StrLess(x, y) && StrLess(y, z)
    ensures StrLess(x, z)
  {
    if x != [] && x[0] == y[0] && y[0] == z[0] {
      StrLessTransitive(x[1..], y[1..], z[1..]);
    }
  }

  /**
   * Python's `<` on two keys. Comparing an `int` key with a `str` key
   * raises a TypeError; `UniformKeys` keeps those comparisons out of the
   * sort, and here they are `false`.
   */
  predicate KeyLess(a: SortKey, b: SortKey)
  {
    match (a, b)
    case (IntKey(m), IntKey(n)) => m < n
    case (StrKey(x), StrKey(y)) => StrLess(x, y)
    case _ => false
  }

  predicate SameKind(a: SortKey, b: SortKey)
  {
    a.IntKey? == b.IntKey?
  }

  /** On keys of one kind `<` is a strict total order. */
  lemma KeyOrder(a: SortKey, b: SortKey, c: SortKey)
    requires SameKind(a, b) && SameKind(b, c)
    ensures !KeyLess(a, a)
    ensures KeyLess(a, b) || a == b || KeyLess(b, a)
    ensures !(KeyLess(a, b) && KeyLess(b, a))
    ensures KeyLess(a, b) && KeyLess(b, c) ==> KeyLess(a, c)
  {
    if a.StrKey? {
      StrLessTrichotomy(a.s, b.s);
      StrLessTrichotomy(a.s, a.s);
      if KeyLess(a, b) && KeyLess(b, c) {
        StrLessTransitive(a.s, b.s, c.s);
      }
    }
  }

  /** Not-less chains: if `a` is not below `b` and `b` not below `c`, then `a` is not below `c`. */
  lemma NotLessTransitive(a: SortKey, b: SortKey, c: SortKey)
    requires SameKind(a, b) && SameKind(b, c)
    requires !KeyLess(a, b) && !KeyLess(b, c)
    ensures !KeyLess(a, c)
  {
    KeyOrder(a, b, c);
    KeyOrder(b, a, c);
  }

  /** Every key of `names` has the same kind, so the sort never compares an `int` with a `str`. */
  predicate UniformKeys(names: seq<string>)
  {
    (forall i :: 0 <= i < |names| ==> HasDigit(names[i])) ||
    (forall i :: 0 <= i < |names| ==> !HasDigit(names[i]))
  }

  /** No later name has a smaller key than an earlier one. */
  predicate Sorted(names: seq<string>)
  {
    forall i, j :: 0 <= i < j < |names| ==> !KeyLess(Key(names[j]), Key(names[i]))
  }

  /** The names whose key is `k`, in their order in `names`. */
  function WithKey(names: seq<string>, k: SortKey): (r: seq<string>)
    ensures forall i :: 0 <= i < |r| ==> Key(r[i]) == k
  {
    if names == [] then []
    else WithKey(Init(names), k) + (if Key(Last(names)) == k then [Last(names)] else [])
  }

  /**
   * One step of insertion sort: `x` moves left past every name with a
   * larger key and stops behind the first one that is not larger.
   */
  function InsertBack(x: string, sorted: seq<string>): (r: seq<string>)
    ensures |r| == |sorted| + 1
  {
    if sorted == [] then [x]
    else if KeyLess(Key(x), Key(Last(sorted))) then InsertBack(x, Init(sorted)) + [Last(sorted)]
    else sorted + [x]
  }

  /** The reference stable sort: insert the names one after the other. */
  function SortByKey(names: seq<string>): (r: seq<string>)
    ensures |r| == |names|
  {
    if names == [] then [] else InsertBack(Last(names), SortByKey(Init(names)))
  }

  lemma {:induction false} InsertBackPermutes(x: string, sorted: seq<string>)
    ensures multiset(InsertBack(x, sorted)) == multiset(sorted) + multiset{x}
  {
    if sorted != [] && KeyLess(Key(x), Key(Last(sorted))) {
      InsertBackPermutes(x, Init(sorted));
      assert sorted == Init(sorted) + [Last(sorted)];
    }
  }

  /** Inserting keeps the order among the names of every key and puts `x` last among its own. */
  lemma {:induction false} InsertBackStable(x: string, sorted: seq<string>, k: SortKey)
    ensures WithKey(InsertBack(x, sorted), k) == WithKey(sorted, k) + (if Key(x) == k then [x] else [])
  {
    if sorted == [] {
      assert WithKey([x], k) == WithKey([], k) + (if Key(x) == k then [x] else []);
    } else if KeyLess(Key(x), Key(Last(sorted))) {
      var init, last := Init(sorted), Last(sorted);
      var rest := InsertBack(x, init);
      var w := WithKey(init, k);
      var xs := if Key(x) == k then [x] else [];
      var ls := if Key(last) == k then [last] else [];
      InsertBackStable(x, init, k);
      assert WithKey(rest, k) == w + xs;
      InitSnoc(rest, last);
      assert WithKey(rest + [last], k) == w + xs + ls;
      assert WithKey(sorted, k) == w + ls;
      KeyOrder(Key(x), Key(x), Key(x));
      SwapWithEmpty(w, xs, ls);
    } else {
      InitSnoc(sorted, x);
    }
  }

  /** Every name of `s` has a digit exactly when `digits` holds: all keys are of one kind. */
  predicate OfKind(s: seq<string>, digits: bool)
  {
    forall i :: 0 <= i < |s| ==> HasDigit(s[i]) == digits
  }

  /** Uniform keys are the keys of one kind. */
  lemma UniformKind(names: seq<string>)
    ensures UniformKeys(names) <==> OfKind(names, true) || OfKind(names, false)
  {
  }

  /** Inserting a name of the same kind keeps the list of one kind. */
  lemma {:induction false} InsertBackKind(x: string, s: seq<string>, digits: bool)
    requires OfKind(s, digits) && HasDigit(x) == digits
    ensures OfKind(InsertBack(x, s), digits)
  {
    if s != [] && KeyLess(Key(x), Key(Last(s))) {
      assert OfKind(Init(s), digits) by {
        forall i | 0 <= i < |Init(s)| ensures Init(s)[i] == s[i] {}
      }
      InsertBackKind(x, Init(s), digits);
      assert HasDigit(s[|s| - 1]) == digits;
    }
  }

  /** No name of `s` has a larger key than `y`. */
  predicate UpperBound(s: seq<string>, y: string)
  {
    forall i :: 0 <= i < |s| ==> !KeyLess(Key(y), Key(s[i]))
  }

  /** A sorted list stays sorted when a name with a key no smaller than all of its keys is added at the end. */
  lemma SortedSnoc(s: seq<string>, y: string)
    requires Sorted(s) && UpperBound(s, y)
    ensures Sorted(s + [y])
  {
    var t := s + [y];
    forall i, j | 0 <= i < j < |t| ensures !KeyLess(Key(t[j]), Key(t[i])) {
      if j < |s| {
        assert t[i] == s[i] && t[j] == s[j];
      } else {
        assert t[i] == s[i];
      }
    }
  }

  /** Inserting a name that is not above `y` keeps `y` an upper bound. */
  lemma {:induction false} InsertBackBounded(x: string, s: seq<string>, y: string)
    requires UpperBound(s, y) && !KeyLess(Key(y), Key(x))
    ensures UpperBound(InsertBack(x, s), y)
  {
    if s != [] && KeyLess(Key(x), Key(Last(s))) {
      assert UpperBound(Init(s), y) by {
        forall i | 0 <= i < |Init(s)| ensures Init(s)[i] == s[i] {}
      }
      InsertBackBounded(x, Init(s), y);
      assert !KeyLess(Key(y), Key(s[|s| - 1]));
    }
  }

  /** In a sorted list of one kind, a name of that kind no smaller than the last is an upper bound. */
  lemma AboveLast(s: seq<string>, x: string, digits: bool)
    requires s != [] && Sorted(s) && OfKind(s, digits) && HasDigit(x) == digits
    requires !KeyLess(Key(x), Key(Last(s)))
    ensures UpperBound(s, x)
  {
    var n := |s| - 1;
    forall i | 0 <= i < |s| ensures !KeyLess(Key(x), Key(s[i])) {
      if i < n {
        assert HasDigit(s[i]) == digits && HasDigit(s[n]) == digits;
        NotLessTransitive(Key(x), Key(s[n]), Key(s[i]));
      }
    }
  }

  lemma {:induction false} InsertBackSorted(x: string, sorted: seq<string>, digits: bool)
    requires Sorted(sorted) && OfKind(sorted, digits) && HasDigit(x) == digits
    ensures Sorted(InsertBack(x, sorted))
  {
    if sorted == [] {
    } else if KeyLess(Key(x), Key(Last(sorted))) {
      var init, last := Init(sorted), Last(sorted);
      assert Sorted(init) && OfKind(init, digits) && UpperBound(init, last) by {
        forall i | 0 <= i < |init| ensures init[i] == sorted[i] {}
      }
      InsertBackSorted(x, init, digits);
      assert HasDigit(sorted[|sorted| - 1]) == digits;
      KeyOrder(Key(x), Key(last), Key(last));
      InsertBackBounded(x, init, last);
      SortedSnoc(InsertBack(x, init), last);
    } else {
      AboveLast(sorted, x, digits);
      SortedSnoc(sorted, x);
    }
  }

  /** The reference sort keeps the names of one kind of one kind. */
  lemma {:induction false} SortByKeyKind(names: seq<string>, digits: bool)
    requires OfKind(names, digits)
    ensures OfKind(SortByKey(names), digits)
  {
    if names != [] {
      assert OfKind(Init(names), digits) by {
        forall i | 0 <= i < |Init(names)| ensures Init(names)[i] == names[i] {}
      }
      SortByKeyKind(Init(names), digits);
      assert HasDigit(names[|names| - 1]) == digits;
      InsertBackKind(Last(names), SortByKey(Init(names)), digits);
    }
  }

  /** The reference sort is a permutation of its input. */
  lemma {:induction false} SortByKeyPermutes(names: seq<string>)
    ensures multiset(SortByKey(names)) == multiset(names)
  {
    if names != [] {
      SortByKeyPermutes(Init(names));
      InsertBackPermutes(Last(names), SortByKey(Init(names)));
      assert names == Init(names) + [Last(names)];
    }
  }

  /** The reference sort of names of one kind orders them by key. */
  lemma {:induction false} SortByKeySortedOfKind(names: seq<string>, digits: bool)
    requires OfKind(names, digits)
    ensures Sorted(SortByKey(names))
  {
    if names != [] {
      var init := Init(names);
      assert OfKind(init, digits) by {
        forall i | 0 <= i < |init| ensures init[i] == names[i] {}
      }
      SortByKeySortedOfKind(init, digits);
      SortByKeyKind(init, digits);
      assert HasDigit(names[|names| - 1]) == digits;
      InsertBackSorted(Last(names), SortByKey(init), digits);
    }
  }

  /** With uniform keys the reference sort orders by key and is a permutation of its input. */
  lemma SortByKeySorted(names: seq<string>)
    requires UniformKeys(names)
    ensures Sorted(SortByKey(names))
    ensures multiset(SortByKey(names)) == multiset(names)
  {
    UniformKind(names);
    SortByKeySortedOfKind(names, OfKind(names, true));
    SortByKeyPermutes(names);
  }

  /** Stability: the names of any one key come out in the order they went in. */
  lemma {:induction false} SortByKeyStable(names: seq<string>, k: SortKey)
    ensures WithKey(SortByKey(names), k) == WithKey(names, k)
  {
    if names != [] {
      SortByKeyStable(Init(names), k);
      InsertBackStable(Last(names), SortByKey(Init(names)), k);
    }
  }
  lemma {:induction false} WithKeyMembers(names: seq<string>, k: SortKey, x: string)
    ensures x in WithKey(names, k) <==> x in names && Key(x) == k
  {
    if names != [] {
      WithKeyMembers(Init(names), k, x);
      assert names == Init(names) + [Last(names)];
    }
  }

  /** The last name of a sorted list has a key no other name exceeds. */
  lemma SortedLastIsLargest(names: seq<string>, x: string)
    requires Sorted(names) && x in names
    ensures !KeyLess(Key(Last(names)), Key(x))
  {
    var i :| 0 <= i < |names| && names[i] == x;
    if i < |names| - 1 {
      assert Key(Last(names)) == Key(names[|names| - 1]);
    } else {
      KeyOrder(Key(x), Key(x), Key(x));
    }
  }

  /** Two sorted lists that hold each other's last names end with names of equal keys. */
  lemma SameLastKey(r1: seq<string>, r2: seq<string>, digits: bool)
    requires r1 != [] && r2 != []
    requires Sorted(r1) && Sorted(r2)
    requires Last(r1) in r2 && Last(r2) in r1
    requires HasDigit(Last(r1)) == digits && HasDigit(Last(r2)) == digits
    ensures Key(Last(r1)) == Key(Last(r2))
  {
    var k1, k2 := Key(Last(r1)), Key(Last(r2));
    SortedLastIsLargest(r2, Last(r1));
    SortedLastIsLargest(r1, Last(r2));
    KeyOrder(k1, k2, k2);
  }

  /** Two sorted lists with the same names of each key end with the same name. */
  lemma SameLast(r1: seq<string>, r2: seq<string>, digits: bool)
    requires r1 != [] && r2 != []
    requires Sorted(r1) && Sorted(r2)
    requires forall x :: x in r1 ==> HasDigit(x) == digits
    requires forall x :: x in r2 ==> HasDigit(x) == digits
    requires forall k :: WithKey(r1, k) == WithKey(r2, k)
    ensures Last(r1) == Last(r2)
  {
    var l1, l2 := Last(r1), Last(r2);
    var k1, k2 := Key(l1), Key(l2);
    assert l1 in r1 && l2 in r2;
    WithKeyMembers(r1, k1, l1);
    WithKeyMembers(r2, k1, l1);
    WithKeyMembers(r2, k2, l2);
    WithKeyMembers(r1, k2, l2);
    SameLastKey(r1, r2, digits);
    var w1, w2 := WithKey(r1, k1), WithKey(r2, k1);
    assert w1 == WithKey(Init(r1), k1) + [l1];
    assert w2 == WithKey(Init(r2), k1) + [l2];
    assert w1[|w1| - 1] == l1 && w2[|w2| - 1] == l2;
    assert w1 == w2;
  }

  /** Dropping the same last name from both lists keeps their names of each key equal. */
  lemma SameGroupsOfInit(r1: seq<string>, r2: seq<string>)
    requires r1 != [] && r2 != [] && Last(r1) == Last(r2)
    requires forall k :: WithKey(r1, k) == WithKey(r2, k)
    ensures forall k :: WithKey(Init(r1), k) == WithKey(Init(r2), k)
  {
    var l := Last(r1);
    forall k ensures WithKey(Init(r1), k) == WithKey(Init(r2), k) {
      assert WithKey(r1, k) == WithKey(r2, k);
      var w1, w2 := WithKey(Init(r1), k), WithKey(Init(r2), k);
      if k == Key(l) {
        assert w1 + [l] == w2 + [l];
        assert w1 == (w1 + [l])[..|w1|] && w2 == (w2 + [l])[..|w2|];
      } else {
        assert WithKey(r1, k) == w1 + [] == w1;
        assert WithKey(r2, k) == w2 + [] == w2;
      }
    }
  }

  /**
   * Two lists sorted by key, all of whose keys are of one kind, and that
   * hold the same names of each key in the same order, are equal.
   */
  lemma {:induction false} SortedGroupsDetermine(r1: seq<string>, r2: seq<string>, digits: bool)
    requires Sorted(r1) && Sorted(r2)
    requires forall x :: x in r1 ==> HasDigit(x) == digits
    requires forall x :: x in r2 ==> HasDigit(x) == digits
    requires forall k :: WithKey(r1, k) == WithKey(r2, k)
    ensures r1 == r2
  {
    if r1 == [] || r2 == [] {
      if r1 != [] || r2 != [] {
        var r := if r1 != [] then r1 else r2;
        var k := Key(Last(r));
        WithKeyMembers(r, k, Last(r));
        assert false;
      }
    } else {
      SameLast(r1, r2, digits);
      SameGroupsOfInit(r1, r2);
      var i1, i2 := Init(r1), Init(r2);
      forall x | x in i1 ensures HasDigit(x) == digits {
        assert x in r1;
      }
      forall x | x in i2 ensures HasDigit(x) == digits {
        assert x in r2;
      }
      assert Sorted(i1) && Sorted(i2);
      SortedGroupsDetermine(i1, i2, digits);
      InitLast(r1);
      InitLast(r2);
    }
  }

  /**
   * A stable sort by key has exactly one result: any list that is sorted by
   * key and keeps the names of each key in their input order is the
   * reference sort. So Python's `list.sort` (Timsort) and the insertion sort
   * below give the same list.
   */
  lemma StableSortUnique(names: seq<string>, r: seq<string>)
    requires UniformKeys(names)
    requires Sorted(r)
    requires forall k :: WithKey(r, k) == WithKey(names, k)
    ensures r == SortByKey(names)
  {
    var s := SortByKey(names);
    SortByKeySorted(names);
    var digits := names != [] && HasDigit(names[0]);
    forall x | x in names ensures HasDigit(x) == digits {}
    forall x | x in s ensures HasDigit(x) == digits {
      assert x in multiset(names);
    }
    forall x | x in r ensures HasDigit(x) == digits {
      WithKeyMembers(r, Key(x), x);
      WithKeyMembers(names, Key(x), x);
    }
    forall k ensures WithKey(r, k) == WithKey(s, k) {
      SortByKeyStable(names, k);
    }
    SortedGroupsDetermine(r, s, digits);
  }

  /**
   * `pdf_files.sort(key=...)`, in place: an insertion sort that moves each
   * name left past the names with a larger key. The result is the stable
   * sort of the list, which is the only result `list.sort` can give.
   */
  method SortPdfFiles(a: array<string>)
    requires UniformKeys(a[..])
    modifies a
    ensures a[..] == SortByKey(old(a[..]))
  {
    ghost var input := a[..];
    for i := 0 to a.Length
      invariant a[..i] == SortByKey(input[..i])
      invariant a[i..] == input[i..]
    {
      InsertIntoSortedPrefix(a, i);
      assert input[..i + 1] == input[..i] + [input[i]];
    }
    assert input[..a.Length] == input;
  }

  /** One pass of the insertion sort: `a[i]` moves into the prefix `a[..i]`. */
  method InsertIntoSortedPrefix(a: array<string>, i: nat)
    requires i < a.Length
    modifies a
    ensures a[..i + 1] == InsertBack(old(a[i]), old(a[..i]))
    ensures a[i + 1..] == old(a[i + 1..])
  {
    var x := a[i];
    ghost var orig := a[..];
    var j := ShiftLarger(a, i, x, orig);
    a[j] := x;
    InsertBackAfterLarger(x, orig, i, j);
    InsertedAt(a[..], orig, x, i, j);
  }

  /**
   * The inner loop of a pass: the names of `a[..i]` whose key is above that
   * of `x` move one place right, and the free slot `j` is returned.
   */
  method ShiftLarger(a: array<string>, i: nat, x: string, ghost orig: seq<string>) returns (j: nat)
    requires i < a.Length && a[..] == orig
    modifies a
    ensures j <= i
    ensures forall k :: 0 <= k < j ==> a[k] == orig[k]
    ensures forall k {:trigger a[k]} :: j < k <= i ==> a[k] == orig[k - 1]
    ensures forall k :: i < k < a.Length ==> a[k] == orig[k]
    ensures forall k :: j <= k < i ==> KeyLess(Key(x), Key(orig[k]))
    ensures j == 0 || !KeyLess(Key(x), Key(orig[j - 1]))
  {
    j := i;
    while j > 0 && KeyLess(Key(x), Key(a[j - 1]))
      invariant 0 <= j <= i
      invariant forall k :: 0 <= k < j ==> a[k] == orig[k]
      invariant forall k {:trigger a[k]} :: j < k <= i ==> a[k] == orig[k - 1]
      invariant forall k :: i < k < a.Length ==> a[k] == orig[k]
      invariant forall k :: j <= k < i ==> KeyLess(Key(x), Key(orig[k]))
    {
      a[j] := a[j - 1];
      j := j - 1;
    }
  }

  /** `b` is `orig` with `orig[..i]` turned into `orig[..j] + [x] + orig[j..i]`. */
  lemma InsertedAt(b: seq<string>, orig: seq<string>, x: string, i: nat, j: nat)
    requires j <= i < |orig| == |b|
    requires forall k :: 0 <= k < j ==> b[k] == orig[k]
    requires b[j] == x
    requires forall k :: j < k <= i ==> b[k] == orig[k - 1]
    requires forall k :: i < k < |b| ==> b[k] == orig[k]
    ensures b[..i + 1] == orig[..j] + [x] + orig[j..i]
    ensures b[i + 1..] == orig[i + 1..]
  {
  }

  /** While `x` is below the name before position `j`, it moves one place further left. */
  lemma InsertBackPastLarger(x: string, s: seq<string>, j: nat)
    requires 0 < j <= |s|
    requires KeyLess(Key(x), Key(s[j - 1]))
    ensures InsertBack(x, s[..j]) + s[j..] == InsertBack(x, s[..j - 1]) + s[j - 1..]
  {
    assert s[..j - 1] == Init(s[..j]) && s[j - 1] == Last(s[..j]);
    assert s[j - 1..] == [s[j - 1]] + s[j..];
  }

  /** `x` stops at position `j` once the name before it is not larger. */
  lemma InsertBackStops(x: string, s: seq<string>, j: nat)
    requires j <= |s|
    requires j == 0 || !KeyLess(Key(x), Key(s[j - 1]))
    ensures InsertBack(x, s[..j]) == s[..j] + [x]
  {
  }

  /** Inserting `x` at the back passes the names from `m` on, all of which are larger. */
  lemma {:induction false} InsertBackPastAll(x: string, s: seq<string>, m: nat)
    requires m <= |s|
    requires forall k :: m <= k < |s| ==> KeyLess(Key(x), Key(s[k]))
    ensures InsertBack(x, s) == InsertBack(x, s[..m]) + s[m..]
    decreases |s| - m
  {
    if m == |s| {
      assert s[..m] == s && s[m..] == [];
    } else {
      InsertBackPastAll(x, s, m + 1);
      InsertBackPastLarger(x, s, m + 1);
    }
  }

  /**
   * `x` lands at position `j` when every name from `j` on is larger and the
   * name before `j`, if any, is not.
   */
  lemma InsertBackAfterLarger(x: string, orig: seq<string>, i: nat, j: nat)
    requires j <= i <= |orig|
    requires j == 0 || !KeyLess(Key(x), Key(orig[j - 1]))
    requires forall k :: j <= k < i ==> KeyLess(Key(x), Key(orig[k]))
    ensures InsertBack(x, orig[..i]) == orig[..j] + [x] + orig[j..i]
  {
    var s := orig[..i];
    assert forall k :: j <= k < |s| ==> s[k] == orig[k];
    InsertBackPastAll(x, s, j);
    InsertBackStops(x, s, j);
    assert s[..j] == orig[..j] && s[j..] == orig[j..i];
  }
}
