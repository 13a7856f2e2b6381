/** The month-name to section-text dictionary the merge works on, keeping Python's insertion
    order, and `regenerate_ordered_content`, which joins it back into one page. */
module Sections {
  import opened Dates
  import opened Text

  /** A `dict` from section name to section text: `keys` in insertion order, `text` the entries. */
  datatype SectionMap = SectionMap(keys: seq<string>, text: map<string, string>)

  predicate Distinct(ks: seq<string>) {
    forall i, j :: 0 <= i < j < |ks| ==> ks[i] != ks[j]
  }

  predicate Valid(m: SectionMap) {
    Distinct(m.keys) && (forall k :: k in m.text ==> k in m.keys) && (forall k :: k in m.keys ==> k in m.text)
  }

  /** `{}`. */
  function Empty(): (m: SectionMap)
    ensures Valid(m) && m.keys == [] && m.text == map[]
  {
    SectionMap([], map[])
  }

  /** `d[k] = v`: an existing key keeps its place in the order, a new key goes last. */
  function Put(m: SectionMap, k: string, v: string): (r: SectionMap)
    requires Valid(m)
    ensures Valid(r) && r.text == m.text[k := v]
    ensures k in m.text ==> r.keys == m.keys
    ensures k !in m.text ==> r.keys == m.keys + [k]
  {
    if k in m.text then SectionMap(m.keys, m.text[k := v]) else SectionMap(m.keys + [k], m.text[k := v])
  }

  /** Where `x` first stands in `ks`. */
  function IndexOf(ks: seq<string>, x: string): (i: nat)
    requires x in ks
    ensures i < |ks| && ks[i] == x
  {
    if ks[0] == x then 0 else 1 + IndexOf(ks[1..], x)
  }

  /** The month names in `ks`, from `MonthNames[i]` down to January. */
  function MonthsDown(ks: seq<string>, i: int): (r: seq<string>)
    requires -1 <= i < 12
    ensures forall a :: 0 <= a < |r| ==> r[a] in ks && 0 <= MonthIndex(r[a]) <= i
    ensures forall a, b :: 0 <= a < b < |r| ==> MonthIndex(r[a]) > MonthIndex(r[b])
    ensures forall x :: x in ks && 0 <= MonthIndex(x) <= i ==> x in r
    decreases i + 1
  {
    if i < 0 then []
    else
      var rest := MonthsDown(ks, i - 1);
      var r := if MonthNames[i] in ks then [MonthNames[i]] + rest else rest;
      MonthIndexOfName(i);
      MonthsDownStep(MonthIndex, ks, i, MonthNames[i], rest, r);
      r
  }

  /** One step of `MonthsDown` for any sort key: adding the one name `m` of key `i` to the
      names of smaller key. */
  lemma MonthsDownStep(key: string -> int, ks: seq<string>, i: int, m: string, rest: seq<string>, r: seq<string>)
    requires 0 <= i && key(m) == i && forall x :: key(x) == i ==> x == m
    requires forall a :: 0 <= a < |rest| ==> rest[a] in ks && 0 <= key(rest[a]) <= i - 1
    requires forall a, b :: 0 <= a < b < |rest| ==> key(rest[a]) > key(rest[b])
    requires forall x :: x in ks && 0 <= key(x) <= i - 1 ==> x in rest
    requires r == if m in ks then [m] + rest else rest
    ensures forall a :: 0 <= a < |r| ==> r[a] in ks && 0 <= key(r[a]) <= i
    ensures forall a, b :: 0 <= a < b < |r| ==> key(r[a]) > key(r[b])
    ensures forall x :: x in ks && 0 <= key(x) <= i ==> x in r
  {
    if m in ks {
      ConsDown(key, m, rest);
      forall a | 0 <= a < |r| ensures r[a] in ks && 0 <= key(r[a]) <= i {
        if a > 0 {
          assert r[a] == rest[a - 1];
        } else {
          assert r[a] == m;
        }
      }
    }
    forall x | x in ks && 0 <= key(x) <= i ensures x in r {
      if key(x) == i {
        assert x == m;
      } else {
        assert x in rest;
      }
    }
  }

  /** A name put in front of names of strictly descending, smaller key keeps the order. */
  lemma ConsDown(key: string -> int, x: string, rest: seq<string>)
    requires forall a :: 0 <= a < |rest| ==> key(rest[a]) < key(x)
    requires forall a, b :: 0 <= a < b < |rest| ==> key(rest[a]) > key(rest[b])
    ensures forall a, b :: 0 <= a < b < |[x] + rest| ==> key(([x] + rest)[a]) > key(([x] + rest)[b])
  {
    var r := [x] + rest;
    forall a, b | 0 <= a < b < |r| ensures key(r[a]) > key(r[b]) {
      assert r[b] == rest[b - 1];
      if a > 0 {
        assert r[a] == rest[a - 1];
      }
    }
  }

  /** The keys of `ks` that are not month names, in their order in `ks`. */
  function NonMonths(ks: seq<string>): (r: seq<string>)
    ensures forall x :: x in r <==> x in ks && MonthIndex(x) == -1
  {
    if |ks| == 0 then []
    else
      var rest := NonMonths(ks[1..]);
      assert forall x :: x in rest ==> x in ks[1..];
      if MonthIndex(ks[0]) == -1 then [ks[0]] + rest else rest
  }

  /** Past the first key, positions in `ks` are one more than positions in its tail. */
  lemma IndexOfTail(ks: seq<string>, x: string)
    requires |ks| > 0 && x in ks[1..] && x != ks[0]
    ensures IndexOf(ks, x) == 1 + IndexOf(ks[1..], x)
  {
  }

  /** Of distinct keys, the non-months come without repeats and in the keys' own order. */
  lemma {:induction false} NonMonthsInOrder(ks: seq<string>)
    requires Distinct(ks)
    ensures Distinct(NonMonths(ks))
    ensures forall a, b :: 0 <= a < b < |NonMonths(ks)| ==> IndexOf(ks, NonMonths(ks)[a]) < IndexOf(ks, NonMonths(ks)[b])
  {
    if |ks| > 0 {
      DistinctTail(ks);
      var rest := NonMonths(ks[1..]);
      NonMonthsInOrder(ks[1..]);
      assert forall a :: 0 <= a < |rest| ==> rest[a] in ks[1..] by {
        forall a | 0 <= a < |rest| ensures rest[a] in ks[1..] {
          assert rest[a] in rest;
        }
      }
      TailIndexes(ks, rest);
      if MonthIndex(ks[0]) == -1 {
        ConsInOrder(ks, rest);
      }
    }
    InOrderIsDistinct(ks, NonMonths(ks));
  }

  lemma DistinctTail(ks: seq<string>)
    requires Distinct(ks) && |ks| > 0
    ensures Distinct(ks[1..]) && ks[0] !in ks[1..]
  {
    assert forall i, j :: 0 <= i < j < |ks| - 1 ==> ks[1..][i] == ks[i + 1] && ks[1..][j] == ks[j + 1];
    forall k | 0 <= k < |ks| - 1 ensures ks[1..][k] != ks[0] {
      assert ks[1..][k] == ks[k + 1];
    }
  }

  /** The tail's elements sit one place further in `ks` than in its tail. */
  lemma TailIndexes(ks: seq<string>, rest: seq<string>)
    requires |ks| > 0 && ks[0] !in ks[1..]
    requires forall a :: 0 <= a < |rest| ==> rest[a] in ks[1..]
    ensures forall a :: 0 <= a < |rest| ==> rest[a] in ks[1..] && rest[a] in ks && IndexOf(ks, rest[a]) == 1 + IndexOf(ks[1..], rest[a])
  {
    forall a | 0 <= a < |rest| ensures rest[a] in ks[1..] && rest[a] in ks && IndexOf(ks, rest[a]) == 1 + IndexOf(ks[1..], rest[a]) {
      IndexOfTail(ks, rest[a]);
    }
  }

  /** Putting the first key in front of tail elements in order keeps them in order. */
  lemma ConsInOrder(ks: seq<string>, rest: seq<string>)
    requires |ks| > 0
    requires forall a :: 0 <= a < |rest| ==> rest[a] in ks[1..] && rest[a] in ks && IndexOf(ks, rest[a]) == 1 + IndexOf(ks[1..], rest[a])
    requires forall a, b :: 0 <= a < b < |rest| ==> IndexOf(ks[1..], rest[a]) < IndexOf(ks[1..], rest[b])
    ensures forall a, b :: 0 <= a < b < |[ks[0]] + rest| ==>
              IndexOf(ks, ([ks[0]] + rest)[a]) < IndexOf(ks, ([ks[0]] + rest)[b])
  {
    var r := [ks[0]] + rest;
    assert IndexOf(ks, ks[0]) == 0;
    forall a, b | 0 <= a < b < |r| ensures IndexOf(ks, r[a]) < IndexOf(ks, r[b]) {
      assert r[b] == rest[b - 1];
      if a > 0 {
        assert r[a] == rest[a - 1];
      }
    }
  }

  lemma InOrderIsDistinct(ks: seq<string>, r: seq<string>)
    requires forall x :: x in r ==> x in ks
    requires forall a, b :: 0 <= a < b < |r| ==> IndexOf(ks, r[a]) < IndexOf(ks, r[b])
    ensures Distinct(r)
  {
    forall a, b | 0 <= a < b < |r| ensures r[a] != r[b] {
      assert r[a] in r && r[b] in r;
    }
  }

  /** `sorted(sections.keys(), key=MONTH_NAMES.index or -1, reverse=True)`. */
  function OrderedKeys(m: SectionMap): seq<string> {
    MonthsDown(m.keys, 11) + NonMonths(m.keys)
  }

  /** `"".join(text[k] for k in ks)`. */
  function JoinIn(ks: seq<string>, text: map<string, string>): string
    requires forall k :: k in ks ==> k in text
  {
    if |ks| == 0 then "" else text[ks[0]] + JoinIn(ks[1..], text)
  }

  /** `regenerate_ordered_content(sections)`. */
  function Regenerate(m: SectionMap): string
    requires Valid(m)
  {
    OrderedKeysArePermutation(m);
    JoinIn(OrderedKeys(m), m.text)
  }

  lemma DistinctConcat(a: seq<string>, b: seq<string>)
    requires Distinct(a) && Distinct(b)
    requires forall x :: x in a ==> x !in b
    ensures Distinct(a + b)
  {
    forall i, j | 0 <= i < j < |a + b| ensures (a + b)[i] != (a + b)[j] {
      if j < |a| {
        assert (a + b)[i] == a[i] && (a + b)[j] == a[j];
      } else if i < |a| {
        assert (a + b)[i] == a[i] && (a + b)[j] == b[j - |a|];
        assert a[i] in a && b[j - |a|] in b;
      } else {
        assert (a + b)[i] == b[i - |a|] && (a + b)[j] == b[j - |a|];
      }
    }
  }

  /** Every key once: the ordered keys have the same elements and no repeats. */
  lemma OrderedKeysArePermutation(m: SectionMap)
    requires Valid(m)
    ensures Distinct(OrderedKeys(m)) && forall k :: k in OrderedKeys(m) <==> k in m.keys
  {
    var ms, ns := MonthsDown(m.keys, 11), NonMonths(m.keys);
    NonMonthsInOrder(m.keys);
    forall x | x in ms ensures x !in ns && x in m.keys {
      var a :| 0 <= a < |ms| && ms[a] == x;
    }
    DistinctConcat(ms, ns);
    forall k | k in m.keys ensures k in ms + ns {
      if MonthIndex(k) == -1 { assert k in ns; } else { assert k in ms; }
    }
    assert OrderedKeys(m) == ms + ns;
  }

  /** `a` precedes `b` in a stable sort of `ks` by descending month index. */
  predicate SortedBefore(ks: seq<string>, a: string, b: string)
    requires a in ks && b in ks
  {
    MonthIndex(a) > MonthIndex(b) || (MonthIndex(a) == MonthIndex(b) && IndexOf(ks, a) < IndexOf(ks, b))
  }

  /** The keys are ordered exactly as a stable sort by descending month index orders them:
      later months first, and keys with equal index (the non-months, all -1) in their
      insertion order. */
  lemma OrderedKeysIsStableSort(m: SectionMap)
    requires Valid(m)
    ensures var o := OrderedKeys(m);
            forall i, j :: 0 <= i < j < |o| ==> o[i] in m.keys && o[j] in m.keys && SortedBefore(m.keys, o[i], o[j])
  {
    var ms, ns := MonthsDown(m.keys, 11), NonMonths(m.keys);
    NonMonthsPlaced(m.keys);
    StableSortOfParts(MonthIndex, m.keys, ms, ns);
    assert OrderedKeys(m) == ms + ns;
  }

  /** The non-months of distinct keys are keys with index -1, in the keys' order. */
  lemma NonMonthsPlaced(ks: seq<string>)
    requires Distinct(ks)
    ensures forall a :: 0 <= a < |NonMonths(ks)| ==> NonMonths(ks)[a] in ks && MonthIndex(NonMonths(ks)[a]) == -1
    ensures forall a, b :: 0 <= a < b < |NonMonths(ks)| ==> IndexOf(ks, NonMonths(ks)[a]) < IndexOf(ks, NonMonths(ks)[b])
  {
    var ns := NonMonths(ks);
    NonMonthsInOrder(ks);
    forall a | 0 <= a < |ns| ensures ns[a] in ks && MonthIndex(ns[a]) == -1 {
      assert ns[a] in ns;
    }
  }

  /** Names of strictly descending non-negative key, then names of key -1 in key order, form a
      stable sort by descending key. */
  lemma StableSortOfParts(key: string -> int, keys: seq<string>, ms: seq<string>, ns: seq<string>)
    requires forall a :: 0 <= a < |ms| ==> ms[a] in keys && 0 <= key(ms[a])
    requires forall a, b :: 0 <= a < b < |ms| ==> key(ms[a]) > key(ms[b])
    requires forall a :: 0 <= a < |ns| ==> ns[a] in keys && key(ns[a]) == -1
    requires forall a, b :: 0 <= a < b < |ns| ==> IndexOf(keys, ns[a]) < IndexOf(keys, ns[b])
    ensures forall i, j :: 0 <= i < j < |ms + ns| ==>
              (ms + ns)[i] in keys && (ms + ns)[j] in keys &&
              (key((ms + ns)[i]) > key((ms + ns)[j]) ||
               (key((ms + ns)[i]) == key((ms + ns)[j]) && IndexOf(keys, (ms + ns)[i]) < IndexOf(keys, (ms + ns)[j])))
  {
    var o := ms + ns;
    forall i, j | 0 <= i < j < |o|
      ensures o[i] in keys && o[j] in keys &&
              (key(o[i]) > key(o[j]) || (key(o[i]) == key(o[j]) && IndexOf(keys, o[i]) < IndexOf(keys, o[j])))
    {
      if j < |ms| {
        assert o[i] == ms[i] && o[j] == ms[j];
      } else if i < |ms| {
        assert o[i] == ms[i] && o[j] == ns[j - |ms|];
      } else {
        assert o[i] == ns[i - |ms|] && o[j] == ns[j - |ms|];
      }
    }
  }

  lemma NoNonMonths(ks: seq<string>)
    requires forall k :: k in ks ==> MonthIndex(k) >= 0
    ensures NonMonths(ks) == []
  {
    if |ks| > 0 {
      assert ks[0] in ks;
      NoNonMonths(ks[1..]);
    }
  }

  /** A map whose keys are month names already in descending calendar order regenerates in
      that same order: the page's own order survives a merge that adds no month. */
  lemma OrderedKeysOfSorted(m: SectionMap)
    requires Valid(m)
    requires forall k :: k in m.keys ==> MonthIndex(k) >= 0
    requires forall i, j :: 0 <= i < j < |m.keys| ==> MonthIndex(m.keys[i]) > MonthIndex(m.keys[j])
    ensures OrderedKeys(m) == m.keys
  {
    NoNonMonths(m.keys);
    MonthsDownOfSorted(m.keys, 11);
    assert OrderedKeys(m) == m.keys + [];
  }

  /** A page whose month sections already stand latest month first is joined back in the
      insertion order of its dictionary. */
  lemma RegenerateOfSorted(m: SectionMap)
    requires Valid(m)
    requires forall k :: k in m.keys ==> MonthIndex(k) >= 0
    requires forall i, j :: 0 <= i < j < |m.keys| ==> MonthIndex(m.keys[i]) > MonthIndex(m.keys[j])
    ensures Regenerate(m) == JoinIn(m.keys, m.text)
  {
    OrderedKeysOfSorted(m);
  }

  /** Every section's text stands whole in the joined text, at offset `o`. */
  lemma {:induction false} JoinInHolds(ks: seq<string>, text: map<string, string>, k: string) returns (o: nat)
    requires forall x :: x in ks ==> x in text
    requires k in ks
    ensures PrefixAt(JoinIn(ks, text), o, text[k])
  {
    var head, rest := text[ks[0]], JoinIn(ks[1..], text);
    assert JoinIn(ks, text) == head + rest;
    if ks[0] == k {
      o := 0;
      assert (head + rest)[0..|head|] == head;
    } else {
      assert k in ks[1..];
      var r := JoinInHolds(ks[1..], text, k);
      o := |head| + r;
      assert (head + rest)[o..o + |text[k]|] == rest[r..r + |text[k]|];
    }
  }

  /** Regeneration loses no section: each section's text stands whole in the page. */
  lemma RegenerateHoldsEverySection(m: SectionMap, k: string)
    requires Valid(m) && k in m.keys
    ensures Contains(Regenerate(m), m.text[k])
  {
    OrderedKeysArePermutation(m);
    var o := JoinInHolds(OrderedKeys(m), m.text, k);
    ContainsIff(Regenerate(m), m.text[k]);
  }

  lemma MonthsDownOfSorted(ks: seq<string>, top: int)
    requires -1 <= top < 12
    requires forall k :: k in ks ==> 0 <= MonthIndex(k) <= top
    requires forall i, j :: 0 <= i < j < |ks| ==> MonthIndex(ks[i]) > MonthIndex(ks[j])
    ensures MonthsDown(ks, top) == ks
  {
    var ms := MonthsDown(ks, top);
    assert forall x :: x in ms <==> x in ks by {
      forall x | x in ms ensures x in ks {
        var a :| 0 <= a < |ms| && ms[a] == x;
      }
    }
    SortedByIndexUnique(MonthIndex, ms, ks);
  }

  /** Two sequences with the same elements, both strictly descending by a key, are equal. */
  lemma {:induction false} SortedByIndexUnique(key: string -> int, a: seq<string>, b: seq<string>)
    requires forall x :: x in a <==> x in b
    requires forall i, j :: 0 <= i < j < |a| ==> key(a[i]) > key(a[j])
    requires forall i, j :: 0 <= i < j < |b| ==> key(b[i]) > key(b[j])
    ensures a == b
    decreases |a|
  {
    assert |a| == 0 <==> |b| == 0 by {
      if |a| > 0 { assert a[0] in a; }
      if |b| > 0 { assert b[0] in b; }
    }
    if |a| > 0 {
      SortedHeadsAgree(key, a, b);
      SortedTailsAgree(key, a, b);
      SortedByIndexUnique(key, a[1..], b[1..]);
      assert a == [a[0]] + a[1..] && b == [b[0]] + b[1..];
    }
  }

  lemma SortedHeadsAgree(key: string -> int, a: seq<string>, b: seq<string>)
    requires |a| > 0 && |b| > 0
    requires forall x :: x in a <==> x in b
    requires forall i, j :: 0 <= i < j < |a| ==> key(a[i]) > key(a[j])
    requires forall i, j :: 0 <= i < j < |b| ==> key(b[i]) > key(b[j])
    ensures a[0] == b[0]
  {
    assert a[0] in a && b[0] in b;
    var ia :| 0 <= ia < |b| && b[ia] == a[0];
    var ib :| 0 <= ib < |a| && a[ib] == b[0];
    assert ib == 0 || key(a[0]) > key(a[ib]);
  }

  lemma SortedTailsAgree(key: string -> int, a: seq<string>, b: seq<string>)
    requires |a| > 0 && |b| > 0 && a[0] == b[0]
    requires forall x :: x in a <==> x in b
    requires forall i, j :: 0 <= i < j < |a| ==> key(a[i]) > key(a[j])
    requires forall i, j :: 0 <= i < j < |b| ==> key(b[i]) > key(b[j])
    ensures forall x :: x in a[1..] <==> x in b[1..]
  {
    forall x ensures x in a[1..] ==> x in b[1..] {
      if x in a[1..] {
        var k :| 1 <= k < |a| && a[k] == x;
        assert x in a && key(x) < key(b[0]);
      }
    }
    forall x ensures x in b[1..] ==> x in a[1..] {
      if x in b[1..] {
        var k :| 1 <= k < |b| && b[k] == x;
        assert x in b && key(x) < key(a[0]);
      }
    }
  }
}
