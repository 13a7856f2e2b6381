/** `extract_month_sections`: splitting the page into month sections with
    `<h1>([A-Za-z]+)</h1>([\s\S]*?)(?=<h1>|$)` and `finditer`. */
module Extract {
  import opened Basics
  import opened Text
  import opened Dates
  import opened Sections

  /** `[A-Za-z]`. */
  predicate IsLetter(c: char) {
    'A' <= c <= 'Z' || 'a' <= c <= 'z'
  }

  /** Where the run of letters that starts at `j` ends. */
  function LetterRunEnd(s: string, j: nat): (e: nat)
    requires j <= |s|
    ensures j <= e <= |s|
    ensures forall x :: j <= x < e ==> IsLetter(s[x])
    ensures e < |s| ==> !IsLetter(s[e])
    decreases |s| - j
  {
    if j < |s| && IsLetter(s[j]) then LetterRunEnd(s, j + 1) else j
  }

  /** A match of `<h1>([A-Za-z]+)</h1>` at `i`, as the captured name and the index where the
      section body begins. `<` is not a letter, so the greedy run of letters can only be
      followed by `</h1>` where it ends: backtracking finds no other match. */
  function MonthMatchAt(s: string, i: nat): (r: Option<(string, nat)>)
    requires i <= |s|
    ensures r.Some? ==> PrefixAt(s, i, "<h1>") && i + 4 < r.value.1 - 5 && r.value.1 <= |s|
    ensures r.Some? ==> r.value.0 == s[i + 4..r.value.1 - 5] && PrefixAt(s, r.value.1 - 5, "</h1>")
    ensures r.Some? ==> forall x :: i + 4 <= x < r.value.1 - 5 ==> IsLetter(s[x])
  {
    if !PrefixAt(s, i, "<h1>") then None
    else
      var e := LetterRunEnd(s, i + 4);
      if e > i + 4 && PrefixAt(s, e, "</h1>") then Some((s[i + 4..e], e + 5)) else None
  }

  /** A letter run that stops at a non-letter (or the end) ends exactly there. */
  lemma {:induction false} LetterRunEndIs(s: string, j: nat, e: nat)
    requires j <= e <= |s|
    requires forall x :: j <= x < e ==> IsLetter(s[x])
    requires e < |s| ==> !IsLetter(s[e])
    ensures LetterRunEnd(s, j) == e
    decreases e - j
  {
    if j < e {
      LetterRunEndIs(s, j + 1, e);
    }
  }

  /** Every `<h1>`, one or more letters, `</h1>` at `i` is matched, with those letters as the name. */
  lemma MonthMatchAtComplete(s: string, i: nat, e: nat)
    requires i + 4 < e <= |s|
    requires PrefixAt(s, i, "<h1>") && PrefixAt(s, e, "</h1>")
    requires forall x :: i + 4 <= x < e ==> IsLetter(s[x])
    ensures MonthMatchAt(s, i) == Some((s[i + 4..e], e + 5))
  {
    assert s[e] == '<';
    LetterRunEndIs(s, i + 4, e);
  }

  /** Where the match at `i` ends: the lazy body stops at the next `<h1>` or at `$`. */
  function SectionEnd(s: string, i: nat): (e: nat)
    requires i <= |s| && MonthMatchAt(s, i).Some?
    ensures i < e <= |s|
  {
    SpanEnd(s, MonthMatchAt(s, i).value.1, BeforeH1)
  }

  /** A month heading for `name` starts at `x`. */
  predicate NamedAt(s: string, x: nat, name: string) {
    x <= |s| && MonthMatchAt(s, x).Some? && MonthMatchAt(s, x).value.0 == name
  }

  /** No match starts strictly inside another: the heading holds `<` only where `</h1>`
      begins, and the body stops before any `<h1>`. */
  lemma NoMatchInsideMatch(s: string, i: nat, x: nat)
    requires i <= |s| && MonthMatchAt(s, i).Some? && i < x < SectionEnd(s, i)
    ensures !PrefixAt(s, x, "<h1>")
  {
    var b := MonthMatchAt(s, i).value.1;
    var e := b - 5;
    assert s[i..i + 4] == "<h1>";
    assert s[e..e + 5] == "</h1>";
    if x < i + 4 {
      assert s[x] == s[i..i + 4][x - i] != '<';
    } else if x < e {
      assert IsLetter(s[x]);
    } else if x == e {
      assert s[x + 1] == s[e..e + 5][1] == '/';
    } else if x < b {
      assert s[x] == s[e..e + 5][x - e] != '<';
    } else {
      assert !StopsAt(s, x, BeforeH1);
    }
    if x + 4 <= |s| {
      assert s[x..x + 4][0] == s[x] && s[x..x + 4][1] == s[x + 1];
    }
  }

  /** `finditer` from index `i`, storing each match whose name is a month into `acc`. */
  function ScanFrom(s: string, i: nat, acc: SectionMap): (r: SectionMap)
    requires i <= |s| && Valid(acc)
    ensures Valid(r)
    decreases |s| - i
  {
    if i == |s| then acc
    else
      match MonthMatchAt(s, i)
      case None => ScanFrom(s, i + 1, acc)
      case Some((name, _)) =>
        var e := SectionEnd(s, i);
        ScanFrom(s, e, if IsMonthName(name) then Put(acc, name, s[i..e]) else acc)
  }

  /** `extract_month_sections(content)`. */
  function MonthSectionsOf(s: string): SectionMap {
    ScanFrom(s, 0, Empty())
  }

  /** Where no match starts at `i`, a heading for `name` at or after `i` is one after `i`. */
  lemma NamedPastNoMatch(s: string, i: nat, name: string)
    requires i < |s| && MonthMatchAt(s, i).None?
    ensures (exists x :: i <= x <= |s| && NamedAt(s, x, name)) <==> (exists x :: i + 1 <= x <= |s| && NamedAt(s, x, name))
  {
    if exists x :: i <= x <= |s| && NamedAt(s, x, name) {
      var x :| i <= x <= |s| && NamedAt(s, x, name);
      assert i + 1 <= x;
    }
  }

  /** Where a match starts at `i`, a heading for `name` at or after `i` is that match or one
      at or after its end. */
  lemma NamedPastMatch(s: string, i: nat, name: string)
    requires i < |s| && MonthMatchAt(s, i).Some?
    ensures (exists x :: i <= x <= |s| && NamedAt(s, x, name))
            <==> MonthMatchAt(s, i).value.0 == name || (exists x :: SectionEnd(s, i) <= x <= |s| && NamedAt(s, x, name))
  {
    var e := SectionEnd(s, i);
    forall x | i < x < e ensures !NamedAt(s, x, name) {
      NoMatchInsideMatch(s, i, x);
    }
    if exists x :: i <= x <= |s| && NamedAt(s, x, name) {
      var x :| i <= x <= |s| && NamedAt(s, x, name);
      if x != i {
        assert e <= x;
      }
    }
    if MonthMatchAt(s, i).value.0 == name {
      assert NamedAt(s, i, name);
    }
    if exists x :: e <= x <= |s| && NamedAt(s, x, name) {
      var x :| e <= x <= |s| && NamedAt(s, x, name);
      assert i <= x;
    }
  }

  /** The scan from `i` records exactly the month names that have a heading at or after `i`,
      on top of what `acc` already held. */
  lemma {:induction false} ScanFromKeys(s: string, i: nat, acc: SectionMap, name: string)
    requires i <= |s| && Valid(acc)
    ensures name in ScanFrom(s, i, acc).text
            <==> name in acc.text || (IsMonthName(name) && exists x :: i <= x <= |s| && NamedAt(s, x, name))
    decreases |s| - i
  {
    if i == |s| {
      assert !NamedAt(s, i, name);
    } else {
      match MonthMatchAt(s, i)
      case None =>
        ScanFromKeys(s, i + 1, acc, name);
        NamedPastNoMatch(s, i, name);
      case Some((n, _)) =>
        var e := SectionEnd(s, i);
        var acc' := if IsMonthName(n) then Put(acc, n, s[i..e]) else acc;
        ScanFromKeys(s, e, acc', name);
        NamedPastMatch(s, i, name);
    }
  }

  /** A name without a heading at or after `i` keeps the text `acc` gave it. */
  lemma {:induction false} ScanFromKeeps(s: string, i: nat, acc: SectionMap, name: string)
    requires i <= |s| && Valid(acc) && name in acc.text
    requires forall x :: i <= x <= |s| ==> !NamedAt(s, x, name)
    ensures name in ScanFrom(s, i, acc).text && ScanFrom(s, i, acc).text[name] == acc.text[name]
    decreases |s| - i
  {
    if i < |s| {
      match MonthMatchAt(s, i)
      case None =>
        ScanFromKeeps(s, i + 1, acc, name);
      case Some((n, _)) =>
        var e := SectionEnd(s, i);
        assert n != name by { assert !NamedAt(s, i, name); }
        var acc' := if IsMonthName(n) then Put(acc, n, s[i..e]) else acc;
        ScanFromKeeps(s, e, acc', name);
    }
  }

  /** A month named by a heading at `x`, and by none after it, gets the text of that last
      section: from its `<h1>` up to the next `<h1>` or `$`. */
  lemma {:induction false} ScanFromLast(s: string, i: nat, acc: SectionMap, name: string, x: nat)
    requires i <= x <= |s| && Valid(acc) && IsMonthName(name) && NamedAt(s, x, name)
    requires forall y :: x < y <= |s| ==> !NamedAt(s, y, name)
    ensures name in ScanFrom(s, i, acc).text && ScanFrom(s, i, acc).text[name] == s[x..SectionEnd(s, x)]
    decreases |s| - i
  {
    if i == x {
      var e := SectionEnd(s, i);
      var acc' := Put(acc, name, s[i..e]);
      ScanFromKeeps(s, e, acc', name);
    } else {
      match MonthMatchAt(s, i)
      case None =>
        ScanFromLast(s, i + 1, acc, name, x);
      case Some((n, _)) =>
        var e := SectionEnd(s, i);
        if x < e {
          NoMatchInsideMatch(s, i, x);
          assert false;
        }
        var acc' := if IsMonthName(n) then Put(acc, n, s[i..e]) else acc;
        ScanFromLast(s, e, acc', name, x);
    }
  }

  /** `extract_month_sections`, characterized: the keys are the month names that have an
      `<h1>` heading in the page (other `<h1>` names and text before the first heading are
      dropped), and a repeated month keeps the section of its last heading. */
  lemma MonthSectionsOfSpec(s: string)
    ensures forall name :: name in MonthSectionsOf(s).text
              <==> IsMonthName(name) && exists x :: 0 <= x <= |s| && NamedAt(s, x, name)
    ensures forall name, x :: 0 <= x <= |s| && IsMonthName(name) && NamedAt(s, x, name)
              && (forall y :: x < y <= |s| ==> !NamedAt(s, y, name))
              ==> MonthSectionsOf(s).text[name] == s[x..SectionEnd(s, x)]
  {
    forall name ensures name in MonthSectionsOf(s).text
                        <==> IsMonthName(name) && exists x :: 0 <= x <= |s| && NamedAt(s, x, name) {
      ScanFromKeys(s, 0, Empty(), name);
    }
    forall name, x | 0 <= x <= |s| && IsMonthName(name) && NamedAt(s, x, name)
                     && (forall y :: x < y <= |s| ==> !NamedAt(s, y, name))
      ensures MonthSectionsOf(s).text[name] == s[x..SectionEnd(s, x)]
    {
      ScanFromLast(s, 0, Empty(), name, x);
    }
  }
}
