/** The two pure textual edits: `_replace_user_content` and `_add_to_existing_week`. */
module Splice {
  import opened Basics
  import opened Text
  import opened Markup
  import opened Locate

  /** In a week's text `wc`, the user's entry as `(start, end)`: it starts just after the first
      `<h3>name</h3>` and runs to the next `<h3>`, `<h2>` or the end (`$`) of `wc`. */
  function UserSpan(wc: string, name: string): (r: Option<(nat, nat)>)
    ensures r.None? <==> !Contains(wc, UserHeading(name))
    ensures r.Some? ==> |UserHeading(name)| <= r.value.0 <= r.value.1 <= |wc|
    ensures r.Some? ==> Find(wc, UserHeading(name)) == Some(r.value.0 - |UserHeading(name)|)
    ensures r.Some? ==> StopsAt(wc, r.value.1, BeforeH3OrH2)
    ensures r.Some? ==> forall x :: r.value.0 <= x < r.value.1 ==> !StopsAt(wc, x, BeforeH3OrH2)
  {
    match Find(wc, UserHeading(name))
    case None => None
    case Some(q) =>
      var start := q + |UserHeading(name)|;
      Some((start, SpanEnd(wc, start, BeforeH3OrH2)))
  }

  /** `_replace_user_content`: inside the week span of the exact date string, the user's entry
      becomes `"\n" + content`; the week's old text is then replaced, by `str.replace`, wherever
      it occurs in the section. */
  function ReplaceUserContent(section: string, date: string, content: string, name: string): (r: string)
    ensures WeekMatch(section, date).None? ==> r == section
    ensures WeekMatch(section, date).Some? ==>
              var (a, b) := WeekMatch(section, date).value;
              UserSpan(section[a..b], name).None? ==> r == section
  {
    match WeekMatch(section, date)
    case None => section
    case Some((a, b)) =>
      var wc := section[a..b];
      match UserSpan(wc, name)
      case None => section
      case Some((us, ue)) => ReplaceAll(section, wc, wc[..us] + "\n" + content + wc[ue..])
  }

  /** `t` occurs at most once in `s`. */
  predicate OccursAtMostOnce(s: string, t: string) {
    forall q1, q2 :: 0 <= q1 <= |s| && 0 <= q2 <= |s| && PrefixAt(s, q1, t) && PrefixAt(s, q2, t) ==> q1 == q2
  }

  /** A week's text is first found where its heading is first found. */
  lemma WeekTextFirstAtHeading(section: string, date: string)
    requires WeekMatch(section, date).Some?
    ensures var (a, b) := WeekMatch(section, date).value;
            Find(section, section[a..b]) == Some(a)
  {
    var h := WeekHeading(date);
    var (a, b) := WeekMatch(section, date).value;
    var wc := section[a..b];
    assert wc[..|h|] == h;
    forall q | 0 <= q < a ensures !PrefixAt(section, q, wc) {
      if PrefixAt(section, q, wc) {
        PrefixOfPrefix(section, q, wc, h);
      }
    }
    FindIs(section, wc, a);
  }

  /** When the week heading occurs once, its week text does not recur after the week. */
  lemma WeekTextNotRepeated(section: string, date: string)
    requires OccursAtMostOnce(section, WeekHeading(date))
    requires WeekMatch(section, date).Some?
    ensures var (a, b) := WeekMatch(section, date).value;
            !Contains(section[b..], section[a..b])
  {
    var h := WeekHeading(date);
    var (a, b) := WeekMatch(section, date).value;
    var wc := section[a..b];
    if Contains(section[b..], wc) {
      var q := ContainsSuffix(section, b, wc);
      assert wc[..|h|] == h;
      PrefixOfPrefix(section, q, wc, h);
    }
  }

  /** The replacement, unfolded at a found week and user entry. */
  lemma ReplaceUnfolds(section: string, date: string, content: string, name: string, a: nat, b: nat, us: nat, ue: nat)
    requires WeekMatch(section, date) == Some((a, b))
    requires UserSpan(section[a..b], name) == Some((us, ue))
    ensures ReplaceUserContent(section, date, content, name)
            == ReplaceAll(section, section[a..b], section[a..b][..us] + "\n" + content + section[a..b][ue..])
  {
  }

  /** Splicing a replacement into a slice is splicing it into the whole. */
  lemma SpliceInSlice(s: string, a: nat, b: nat, us: nat, ue: nat, mid: string)
    requires a <= b <= |s| && us <= ue <= b - a
    ensures s[..a] + (s[a..b][..us] + mid + s[a..b][ue..]) + s[b..] == s[..a + us] + mid + s[a + ue..]
  {
    assert s[..a] + s[a..b][..us] == s[..a + us];
    assert s[a..b][ue..] + s[b..] == s[a + ue..];
  }

  /** `str.replace` of a slice that occurs nowhere else splices the new text into that slice. */
  lemma SpliceOnce(s: string, a: nat, b: nat, us: nat, ue: nat, mid: string)
    requires a < b <= |s| && us <= ue <= b - a
    requires Find(s, s[a..b]) == Some(a) && !Contains(s[b..], s[a..b])
    ensures ReplaceAll(s, s[a..b], s[a..b][..us] + mid + s[a..b][ue..]) == s[..a + us] + mid + s[a + ue..]
  {
    var wc := s[a..b];
    assert a + |wc| == b;
    ReplaceAllOnce(s, wc, wc[..us] + mid + wc[ue..], a);
    SpliceInSlice(s, a, b, us, ue, mid);
  }

  /** When the week heading occurs once in the section, replacing changes only the user's
      entry: the text from just after `<h3>name</h3>` up to the next `<h3>`, `<h2>` or end is
      replaced by `"\n" + content`, and everything before and after is kept. */
  lemma ReplaceOnlyUserSpan(section: string, date: string, content: string, name: string, a: nat, b: nat, us: nat, ue: nat)
    requires OccursAtMostOnce(section, WeekHeading(date))
    requires WeekMatch(section, date) == Some((a, b))
    requires UserSpan(section[a..b], name) == Some((us, ue))
    ensures ReplaceUserContent(section, date, content, name)
            == section[..a + us] + "\n" + content + section[a + ue..]
  {
    var wc := section[a..b];
    var mid := "\n" + content;
    ReplaceUnfolds(section, date, content, name, a, b, us, ue);
    assert wc[..us] + "\n" + content + wc[ue..] == wc[..us] + mid + wc[ue..];
    WeekTextFirstAtHeading(section, date);
    WeekTextNotRepeated(section, date);
    SpliceOnce(section, a, b, us, ue, mid);
    assert section[..a + us] + mid + section[a + ue..] == section[..a + us] + "\n" + content + section[a + ue..];
  }

  /** `_add_to_existing_week`: right after the first heading of the exact date string, insert
      `"\n<h3>name</h3>\n" + content`; without that heading the section is returned as it is. */
  function AddToExistingWeek(section: string, date: string, content: string, name: string): (r: string)
    ensures !Contains(section, WeekHeading(date)) ==> r == section
    ensures Contains(section, WeekHeading(date)) ==>
              var cut := Find(section, WeekHeading(date)).value + |WeekHeading(date)|;
              |r| == |section| + |UserBlock(name, content)|
              && r[..cut] == section[..cut]
              && r[cut..cut + |UserBlock(name, content)|] == UserBlock(name, content)
              && r[cut + |UserBlock(name, content)|..] == section[cut..]
  {
    match Find(section, WeekHeading(date))
    case None => section
    case Some(p) =>
      var cut := p + |WeekHeading(date)|;
      section[..cut] + UserBlock(name, content) + section[cut..]
  }

  /** No `<h2>` starts inside `"\n<h3>name</h3>"` when the name has no `<`. */
  lemma NoH2InUserLine(s: string, lo: nat, name: string)
    requires '<' !in name
    requires PrefixAt(s, lo, "\n" + UserHeading(name))
    ensures forall x :: lo <= x < lo + 10 + |name| ==> !PrefixAt(s, x, "<h2>")
  {
    var line := "\n" + UserHeading(name);
    assert |line| == 10 + |name|;
    assert forall j :: 0 <= j < |line| ==> s[lo + j] == line[j] by {
      assert s[lo..lo + |line|] == line;
    }
    forall x | lo <= x < lo + 10 + |name| ensures !PrefixAt(s, x, "<h2>") {
      var k := x - lo;
      if k == 1 {
        assert s[x + 2] == line[3] == '3';
      } else if 5 <= k < 5 + |name| {
        assert s[x] == name[k - 5];
      } else if k == 5 + |name| {
        assert s[x + 1] == line[k + 1] == '/';
      } else {
        assert s[x] == line[k] != '<';
      }
      NotH2At(s, x);
    }
  }

  /** After appending, the week heading is still first found where it was. */
  lemma AppendKeepsHeadingPlace(section: string, date: string, content: string, name: string)
    requires Contains(section, WeekHeading(date))
    ensures Find(AddToExistingWeek(section, date, content, name), WeekHeading(date))
            == Find(section, WeekHeading(date))
  {
    var h := WeekHeading(date);
    var p := Find(section, h).value;
    var cut := p + |h|;
    var r := AddToExistingWeek(section, date, content, name);
    assert r[..cut] == section[..cut];
    assert r[p..cut] == section[p..cut];
    forall q | 0 <= q < p ensures !PrefixAt(r, q, h) {
      if PrefixAt(r, q, h) {
        assert r[q..q + |h|] == section[q..q + |h|];
        assert PrefixAt(section, q, h);
      }
    }
    FindIs(r, h, p);
  }

  /** A week heading first found at `p` and directly followed by the user's heading line has
      the user inside its week span. */
  lemma UserFoundAfterHeading(r: string, date: string, name: string, p: nat)
    requires Find(r, WeekHeading(date)) == Some(p) && '<' !in name
    requires PrefixAt(r, p + |WeekHeading(date)|, "\n" + UserHeading(name))
    requires p + |WeekHeading(date)| + |UserHeading(name)| + 1 < |r|
    ensures WeekMatch(r, date).Some? && WeekMatch(r, date).value.0 == p
    ensures Contains(r[p..WeekMatch(r, date).value.1], UserHeading(name))
  {
    var u := UserHeading(name);
    var cut := p + |WeekHeading(date)|;
    var line := "\n" + u;
    NoH2InUserLine(r, cut, name);
    var b := WeekMatch(r, date).value.1;
    assert b >= cut + |line|;
    assert r[cut + 1..cut + 1 + |u|] == u by {
      assert r[cut + 1..cut + 1 + |u|] == r[cut..cut + |line|][1..];
    }
    assert PrefixAt(r, cut + 1, u);
    ContainsSlice(r, p, b, u);
  }

  /** After appending, the user's heading lies inside the week span of the date. */
  lemma AddedUserIsInWeek(section: string, date: string, content: string, name: string)
    requires Contains(section, WeekHeading(date)) && '<' !in name
    ensures var r := AddToExistingWeek(section, date, content, name);
            WeekMatch(r, date).Some?
            && WeekMatch(r, date).value.0 == Find(section, WeekHeading(date)).value
            && Contains(r[WeekMatch(r, date).value.0..WeekMatch(r, date).value.1], UserHeading(name))
  {
    var h := WeekHeading(date);
    var p := Find(section, h).value;
    var cut := p + |h|;
    var line := "\n" + UserHeading(name);
    var r := AddToExistingWeek(section, date, content, name);
    AppendKeepsHeadingPlace(section, date, content, name);
    assert r == section[..cut] + (line + "\n" + content) + section[cut..];
    assert r[cut..cut + |line|] == line;
    UserFoundAfterHeading(r, date, name, p);
  }

  /** Appending to a week in the format the lookup tries first makes the lookup report the
      user as present: a second identical merge is then skipped. */
  lemma AddedUserIsReported(section: string, day: nat, month: nat, fmt: DateFormat, content: string, name: string)
    requires Contains(section, WeekHeading(Dates.FormatWeekDate(day, month, FirstTriedPadded(fmt))))
    requires '<' !in name
    ensures var date := Dates.FormatWeekDate(day, month, FirstTriedPadded(fmt));
            CheckContentExists(AddToExistingWeek(section, date, content, name), date, fmt, name)
            == Ok(Existence(true, true))
  {
    var date := Dates.FormatWeekDate(day, month, FirstTriedPadded(fmt));
    Dates.ParseFormatWeekDate(day, month, FirstTriedPadded(fmt));
    AddedUserIsInWeek(section, date, content, name);
  }
}
