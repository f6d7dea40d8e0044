/** The phrase formatting of bot_bin/misc.py: code blocks, the fixed-ratio split of a number of
    seconds, English plurals, "A, B and C" joining, and the two duration phrasings. */
module Misc {
  import opened Wrappers
  import opened Seqs
  import opened Text
  import PyInt

  // ---------------------------------------------------------------- codeblock

  /** `codeblock(s, lang=lang)`: a Markdown fenced code block. */
  function Codeblock(s: string, lang: string): string {
    "```" + lang + "\n" + s + "```"
  }

  /** Reads a fenced block back: the language tag up to the first newline, the body up to the
      closing fence. */
  function Unfence(c: string): Option<(string, string)> {
    if |c| < 3 || c[..3] != "```" then None
    else
      var nl := 3 + IndexOf(c[3..], '\n');
      if nl + 1 + 3 <= |c| && c[|c| - 3..] == "```" then Some((c[3..nl], c[nl + 1..|c| - 3])) else None
  }

  lemma CodeblockRoundTrip(s: string, lang: string)
    requires '\n' !in lang
    ensures Unfence(Codeblock(s, lang)) == Some((lang, s))
  {
    var c := Codeblock(s, lang);
    assert c[..3] == "```";
    assert c[3..] == lang + ['\n'] + (s + "```");
    IndexOfSplit(lang, '\n', s + "```");
    var nl := 3 + |lang|;
    assert c[3..nl] == lang;
    assert c[nl + 1..|c| - 3] == s;
    assert c[|c| - 3..] == "```";
  }

  // ---------------------------------------------------------------- split_seconds

  datatype Clock = Clock(days: int, hours: int, minutes: int, seconds: int)

  /** `split_seconds`: three floor `divmod`s. Dafny's `/` and `%` by a positive constant are
      Python's floor division and modulo, so negative inputs behave as in the source. */
  function SplitSeconds(n: int): (c: Clock)
    ensures c.days * 86400 + c.hours * 3600 + c.minutes * 60 + c.seconds == n
    ensures 0 <= c.hours < 24 && 0 <= c.minutes < 60 && 0 <= c.seconds < 60
  {
    var minutes, seconds := n / 60, n % 60;
    var hours, minutes' := minutes / 60, minutes % 60;
    var days, hours' := hours / 24, hours % 24;
    Clock(days, hours', minutes', seconds)
  }

  /** The split is the only breakdown with in-range hours, minutes and seconds. */
  lemma SplitSecondsUnique(n: int, c: Clock)
    requires c.days * 86400 + c.hours * 3600 + c.minutes * 60 + c.seconds == n
    requires 0 <= c.hours < 24 && 0 <= c.minutes < 60 && 0 <= c.seconds < 60
    ensures SplitSeconds(n) == c
  {
    var total := c.days * 1440 + c.hours * 60 + c.minutes;
    assert n == total * 60 + c.seconds;
    assert n / 60 == total && n % 60 == c.seconds;
    var hs := c.days * 24 + c.hours;
    assert total == hs * 60 + c.minutes;
    assert total / 60 == hs && total % 60 == c.minutes;
    assert hs / 24 == c.days && hs % 24 == c.hours;
  }

  // ---------------------------------------------------------------- units and terms

  datatype Unit = Year | Month | Week | Day | Hour | Minute | Second

  /** The English word for a unit. */
  function Word(u: Unit): (w: string)
    ensures |w| >= 3 && '|' !in w && w[|w| - 1] != 'o'
  {
    match u
    case Year => "year"
    case Month => "month"
    case Week => "week"
    case Day => "day"
    case Hour => "hour"
    case Minute => "minute"
    case Second => "second"
  }

  /** The compact suffix for a unit in brief mode. */
  function Abbrev(u: Unit): string {
    match u
    case Year => "y"
    case Month => "mo"
    case Week => "w"
    case Day => "d"
    case Hour => "h"
    case Minute => "m"
    case Second => "s"
  }

  /** One magnitude of a duration breakdown. */
  datatype Part = Part(value: int, unit: Unit)

  // ---------------------------------------------------------------- plural

  /** `format(plural(v), spec)`: `spec` is `singular` or `singular|plural`; an empty or missing
      plural form defaults to the singular plus "s"; the plural form is used unless `abs(v) == 1`. */
  function Plural(v: int, spec: string): string {
    var bar := IndexOf(spec, '|');
    var singular := spec[..bar];
    var plural := if bar < |spec| then spec[bar + 1..] else "";
    var plural' := if plural == "" then singular + "s" else plural;
    IntToString(v) + " " + (if PyInt.Abs(v) != 1 then plural' else singular)
  }

  lemma PluralOfWord(v: int, w: string)
    requires '|' !in w
    ensures Plural(v, w) == IntToString(v) + " " + w + (if PyInt.Abs(v) == 1 then "" else "s")
  {
    assert IndexOf(w, '|') == |w|;
    assert w[..|w|] == w;
  }

  lemma PluralWithOverride(v: int, singular: string, plural: string)
    requires '|' !in singular && plural != ""
    ensures Plural(v, singular + "|" + plural) == IntToString(v) + " " + (if PyInt.Abs(v) == 1 then singular else plural)
  {
    var spec := singular + "|" + plural;
    IndexOfSplit(singular, '|', plural);
    assert spec[..|singular|] == singular;
    assert spec[|singular| + 1..] == plural;
  }

  // ---------------------------------------------------------------- natural_join

  /** `natural_join(seq, sep, conj)`: "", "A", "A and B", "A, B and C" (no comma before the
      conjunction). */
  function NaturalJoin(items: seq<string>, sep: string, conj: string): string {
    if |items| == 0 then ""
    else if |items| == 1 then items[0]
    else if |items| == 2 then items[0] + " " + conj + " " + items[1]
    else Join(items[..|items| - 1], sep) + " " + conj + " " + items[|items| - 1]
  }

  /** From two items on, the joined head, then the conjunction and the last item. */
  lemma NaturalJoinSplit(items: seq<string>, sep: string, conj: string)
    requires |items| >= 2
    ensures NaturalJoin(items, sep, conj) == Join(items[..|items| - 1], sep) + (" " + conj + " " + items[|items| - 1])
  {
    if |items| == 2 {
      assert Join(items[..1], sep) == items[0];
    }
  }

  /** From three items on, the first item is followed by the separator and the joined rest:
      `natural_join` is the conjunction rule applied to the last two items only. */
  lemma NaturalJoinCons(items: seq<string>, sep: string, conj: string)
    requires |items| >= 3
    ensures NaturalJoin(items, sep, conj) == items[0] + sep + NaturalJoin(items[1..], sep, conj)
  {
    var n := |items|;
    var init := items[..n - 1];
    var rest := items[1..];
    NaturalJoinSplit(items, sep, conj);
    NaturalJoinSplit(rest, sep, conj);
    assert init[1..] == rest[..n - 2];
    assert Join(init, sep) == items[0] + sep + Join(init[1..], sep);
  }

  lemma NaturalJoinStartsWithFirst(items: seq<string>, sep: string, conj: string)
    requires items != []
    ensures var j := NaturalJoin(items, sep, conj); |items[0]| <= |j| && j[..|items[0]|] == items[0]
  {
    var n := |items|;
    if n >= 3 {
      JoinStartsWithFirst(items[..n - 1], sep);
      var j := Join(items[..n - 1], sep);
      assert NaturalJoin(items, sep, conj) == j + (" " + conj + " " + items[n - 1]);
    } else if n == 2 {
      assert NaturalJoin(items, sep, conj) == items[0] + (" " + conj + " " + items[1]);
    }
  }

  lemma NaturalJoinEndsWithLast(items: seq<string>, sep: string, conj: string)
    requires items != []
    ensures var j := NaturalJoin(items, sep, conj); var last := items[|items| - 1];
      |last| <= |j| && j[|j| - |last|..] == last
  {
    var n := |items|;
    if n >= 2 {
      var j := NaturalJoin(items, sep, conj);
      var head := if n == 2 then items[0] + " " + conj + " " else Join(items[..n - 1], sep) + " " + conj + " ";
      assert j == head + items[n - 1];
    }
  }

  lemma NaturalJoinAvoids(items: seq<string>, sep: string, conj: string, c: char)
    requires forall i :: 0 <= i < |items| ==> c !in items[i]
    requires c !in sep && c !in conj && c != ' '
    ensures c !in NaturalJoin(items, sep, conj)
  {
    var n := |items|;
    if n >= 3 {
      JoinAvoids(items[..n - 1], sep, c);
    }
  }

  // ---------------------------------------------------------------- rendering terms

  /** A term as the source writes it: "3 days" (via `plural`) or, in brief mode, "3d". */
  function Render(p: Part, brief: bool): string {
    if brief then IntToString(p.value) + Abbrev(p.unit) else Plural(p.value, Word(p.unit))
  }

  function RenderAll(ps: seq<Part>, brief: bool): (ts: seq<string>)
    ensures |ts| == |ps|
    ensures forall i :: 0 <= i < |ps| ==> ts[i] == Render(ps[i], brief)
  {
    seq(|ps|, i requires 0 <= i < |ps| => Render(ps[i], brief))
  }

  lemma RenderAllAppend(a: seq<Part>, b: seq<Part>, brief: bool)
    ensures RenderAll(a + b, brief) == RenderAll(a, brief) + RenderAll(b, brief)
  {
  }

  /** A verbose term is the value, a space, the unit's word and, unless the value is ±1, an "s". */
  lemma VerboseForm(p: Part)
    ensures Render(p, false) == IntToString(p.value) + (" " + Word(p.unit) + (if PyInt.Abs(p.value) == 1 then "" else "s"))
  {
    PluralOfWord(p.value, Word(p.unit));
  }

  predicate IsNonZero(p: Part) {
    p.value != 0
  }

  function NonZero(ps: seq<Part>): seq<Part> {
    Filter(ps, IsNonZero)
  }

  // ---------------------------------------------------------------- absolute_natural_timedelta

  function ClockParts(c: Clock): seq<Part> {
    [Part(c.days, Day), Part(c.hours, Hour), Part(c.minutes, Minute), Part(c.seconds, Second)]
  }

  /** The non-zero terms of the split, largest unit first; some term survives unless the input is 0. */
  function SecondsParts(seconds: int): (ps: seq<Part>)
    ensures forall i :: 0 <= i < |ps| ==> ps[i].value != 0
    ensures forall i :: 0 <= i < 4 && ClockParts(SplitSeconds(seconds))[i].value != 0 ==>
      ClockParts(SplitSeconds(seconds))[i] in ps
    ensures IsSubsequence(ps, ClockParts(SplitSeconds(seconds)))
    ensures seconds != 0 ==> ps != []
  {
    var c := SplitSeconds(seconds);
    var all := ClockParts(c);
    var ps := NonZero(all);
    FilterMembers(all, IsNonZero);
    FilterIsSubsequence(all, IsNonZero);
    var i := if c.days != 0 then 0 else if c.hours != 0 then 1 else if c.minutes != 0 then 2 else 3;
    assert seconds != 0 ==> IsNonZero(all[i]);
    ps
  }

  /** `absolute_natural_timedelta(seconds, accuracy=accuracy)` for a whole number of seconds;
      `None` keeps every term, as `[:None]` does. */
  function AbsoluteNaturalTimedelta(seconds: int, accuracy: Option<int>): string {
    if seconds == 0 then "0 seconds"
    else NaturalJoin(Truncate(RenderAll(SecondsParts(seconds), false), accuracy), ", ", "and")
  }

  /** A rendered term of a non-zero value starts with '-' or a non-zero digit. */
  lemma RenderStartsWithValue(p: Part, brief: bool)
    requires p.value != 0
    ensures var t := Render(p, brief); |t| >= 1 && t[0] == IntToString(p.value)[0] && t[0] != '0'
  {
    var t := Render(p, brief);
    var v := IntToString(p.value);
    if brief {
      assert t == v + Abbrev(p.unit);
    } else {
      VerboseForm(p);
    }
  }

  /** The sentinel "0 seconds" is produced for a zero input and for nothing else. */
  lemma AbsoluteZeroSentinel(seconds: int, accuracy: Option<int>)
    ensures AbsoluteNaturalTimedelta(seconds, accuracy) == "0 seconds" <==> seconds == 0
  {
    if seconds != 0 {
      var ps := SecondsParts(seconds);
      var all := RenderAll(ps, false);
      var terms := Truncate(all, accuracy);
      var r := NaturalJoin(terms, ", ", "and");
      assert AbsoluteNaturalTimedelta(seconds, accuracy) == r;
      if terms != [] {
        assert terms[0] == all[0] == Render(ps[0], false);
        RenderStartsWithValue(ps[0], false);
        NaturalJoinStartsWithFirst(terms, ", ", "and");
        assert r[0] == terms[0][0];
        assert r[0] != "0 seconds"[0];
      } else {
        assert r == "";
      }
    }
  }

  function Keep(p: Part): seq<Part> {
    if p.value != 0 then [p] else []
  }

  lemma NonZeroCons(p: Part, ps: seq<Part>)
    ensures NonZero([p] + ps) == Keep(p) + NonZero(ps)
  {
    assert ([p] + ps)[1..] == ps;
  }

  /** A count of one takes the singular word. */
  lemma PluralOfOne(w: string)
    requires '|' !in w
    ensures Plural(1, w) == "1 " + w
  {
    PluralOfWord(1, w);
    assert IntToString(1) == "1";
  }

  lemma NaturalJoinTwo(a: string, b: string)
    ensures NaturalJoin([a, b], ", ", "and") == a + " and " + b
  {
    assert a + " " + "and" + " " + b == a + " and " + b;
  }

  lemma NaturalJoinThree(a: string, b: string, c: string)
    ensures NaturalJoin([a, b, c], ", ", "and") == a + ", " + b + " and " + c
  {
    assert [a, b, c][..2] == [a, b];
    assert Join([a, b], ", ") == a + ", " + b;
    assert a + ", " + b + " " + "and" + " " + c == a + ", " + b + " and " + c;
  }

  /** The two leading terms of three, joined. */
  lemma JoinLeadingTwo(a: string, b: string, c: string)
    ensures NaturalJoin(PySliceTo([a, b, c], 2), ", ", "and") == a + " and " + b
  {
    assert PySliceTo([a, b, c], 2) == [a, b];
    NaturalJoinTwo(a, b);
  }

  lemma AbsoluteUnfold(seconds: int, accuracy: Option<int>)
    requires seconds != 0
    ensures AbsoluteNaturalTimedelta(seconds, accuracy)
         == NaturalJoin(Truncate(RenderAll(SecondsParts(seconds), false), accuracy), ", ", "and")
  {
  }

  lemma NonZeroFour(a: Part, b: Part, c: Part, d: Part)
    ensures NonZero([a, b, c, d]) == Keep(a) + (Keep(b) + (Keep(c) + Keep(d)))
  {
    assert [a, b, c, d] == [a] + [b, c, d];
    assert [b, c, d] == [b] + [c, d];
    assert [c, d] == [c] + [d];
    assert [d] == [d] + [];
    NonZeroCons(a, [b, c, d]);
    NonZeroCons(b, [c, d]);
    NonZeroCons(c, [d]);
    NonZeroCons(d, []);
    assert Keep(d) + NonZero([]) == Keep(d);
  }

  lemma SecondsPartsOfClock(n: int, c: Clock)
    requires SplitSeconds(n) == c
    ensures SecondsParts(n) == Keep(Part(c.days, Day)) + (Keep(Part(c.hours, Hour)) + (Keep(Part(c.minutes, Minute)) + Keep(Part(c.seconds, Second))))
  {
    NonZeroFour(Part(c.days, Day), Part(c.hours, Hour), Part(c.minutes, Minute), Part(c.seconds, Second));
  }

  lemma PartsOfHoursMinutesSeconds(h: int, m: int, s: int)
    requires 0 < h < 24 && 0 < m < 60 && 0 < s < 60
    ensures SecondsParts(h * 3600 + m * 60 + s) == [Part(h, Hour), Part(m, Minute), Part(s, Second)]
  {
    SplitSecondsUnique(h * 3600 + m * 60 + s, Clock(0, h, m, s));
    SecondsPartsOfClock(h * 3600 + m * 60 + s, Clock(0, h, m, s));
  }

  lemma PartsOfMinutesSeconds(m: int, s: int)
    requires 0 < m < 60 && 0 < s < 60
    ensures SecondsParts(m * 60 + s) == [Part(m, Minute), Part(s, Second)]
  {
    SplitSecondsUnique(m * 60 + s, Clock(0, 0, m, s));
    SecondsPartsOfClock(m * 60 + s, Clock(0, 0, m, s));
  }

  lemma TermsOfMinutesSeconds(m: int, s: int)
    requires 0 < m < 60 && 0 < s < 60
    ensures RenderAll(SecondsParts(m * 60 + s), false) == [Plural(m, "minute"), Plural(s, "second")]
  {
    PartsOfMinutesSeconds(m, s);
    RenderVerboseTwo(Part(m, Minute), Part(s, Second));
  }

  lemma RenderVerboseTwo(a: Part, b: Part)
    ensures RenderAll([a, b], false) == [Plural(a.value, Word(a.unit)), Plural(b.value, Word(b.unit))]
  {
  }

  lemma TermsOfHoursMinutesSeconds(h: int, m: int, s: int)
    requires 0 < h < 24 && 0 < m < 60 && 0 < s < 60
    ensures RenderAll(SecondsParts(h * 3600 + m * 60 + s), false)
         == [Plural(h, "hour"), Plural(m, "minute"), Plural(s, "second")]
  {
    PartsOfHoursMinutesSeconds(h, m, s);
    RenderVerboseThree(Part(h, Hour), Part(m, Minute), Part(s, Second));
  }

  lemma RenderVerboseThree(a: Part, b: Part, c: Part)
    ensures RenderAll([a, b, c], false) == [Plural(a.value, Word(a.unit)), Plural(b.value, Word(b.unit)), Plural(c.value, Word(c.unit))]
  {
  }

  /** Under a day with hours, minutes and seconds all present, accuracy 3 gives
      "H hours, M minutes and S seconds": no serial comma. */
  lemma AbsoluteHoursMinutesSeconds(h: int, m: int, s: int)
    requires 0 < h < 24 && 0 < m < 60 && 0 < s < 60
    ensures AbsoluteNaturalTimedelta(h * 3600 + m * 60 + s, Some(3))
         == Plural(h, "hour") + ", " + Plural(m, "minute") + " and " + Plural(s, "second")
  {
    var terms := [Plural(h, "hour"), Plural(m, "minute"), Plural(s, "second")];
    TermsOfHoursMinutesSeconds(h, m, s);
    AbsoluteUnfold(h * 3600 + m * 60 + s, Some(3));
    assert Truncate(terms, Some(3)) == terms;
    NaturalJoinThree(terms[0], terms[1], terms[2]);
  }

  /** With no accuracy (`accuracy=None`) every term is kept. */
  lemma AbsoluteNoAccuracy(h: int, m: int, s: int)
    requires 0 < h < 24 && 0 < m < 60 && 0 < s < 60
    ensures AbsoluteNaturalTimedelta(h * 3600 + m * 60 + s, None)
         == Plural(h, "hour") + ", " + Plural(m, "minute") + " and " + Plural(s, "second")
  {
    var terms := [Plural(h, "hour"), Plural(m, "minute"), Plural(s, "second")];
    TermsOfHoursMinutesSeconds(h, m, s);
    AbsoluteUnfold(h * 3600 + m * 60 + s, None);
    NaturalJoinThree(terms[0], terms[1], terms[2]);
  }

  /** The same duration at the default accuracy 2 keeps only the two leading terms. */
  lemma AbsoluteDefaultAccuracy(h: int, m: int, s: int)
    requires 0 < h < 24 && 0 < m < 60 && 0 < s < 60
    ensures AbsoluteNaturalTimedelta(h * 3600 + m * 60 + s, Some(2)) == Plural(h, "hour") + " and " + Plural(m, "minute")
  {
    TermsOfHoursMinutesSeconds(h, m, s);
    AbsoluteUnfold(h * 3600 + m * 60 + s, Some(2));
    JoinLeadingTwo(Plural(h, "hour"), Plural(m, "minute"), Plural(s, "second"));
  }

  /** Minutes and seconds under an hour: "M minutes and S seconds" at the default accuracy. */
  lemma AbsoluteMinutesSeconds(m: int, s: int)
    requires 0 < m < 60 && 0 < s < 60
    ensures AbsoluteNaturalTimedelta(m * 60 + s, Some(2)) == Plural(m, "minute") + " and " + Plural(s, "second")
  {
    var terms := [Plural(m, "minute"), Plural(s, "second")];
    TermsOfMinutesSeconds(m, s);
    AbsoluteUnfold(m * 60 + s, Some(2));
    assert Truncate(terms, Some(2)) == terms;
    NaturalJoinTwo(terms[0], terms[1]);
  }

  // ---------------------------------------------------------------- natural_timedelta

  /** The calendar difference `relativedelta` reports (all magnitudes non-negative). */
  datatype Delta = Delta(years: nat, months: nat, days: nat, hours: nat, minutes: nat, seconds: nat)

  /** All seven magnitudes in display order, with whole weeks split off the days
      (`relativedelta.weeks` is the day count divided by 7). */
  function Components(d: Delta): seq<Part> {
    [Part(d.years, Year), Part(d.months, Month), Part(d.days / 7, Week), Part(d.days % 7, Day),
     Part(d.hours, Hour), Part(d.minutes, Minute), Part(d.seconds, Second)]
  }

  /** The terms `natural_timedelta` emits before truncation: the non-zero components in order. */
  function DeltaParts(d: Delta): seq<Part> {
    NonZero(Components(d))
  }

  /** `output[:accuracy]` when an accuracy is given. */
  function Truncate(terms: seq<string>, accuracy: Option<int>): (r: seq<string>)
    ensures accuracy.None? ==> r == terms
    ensures |r| <= |terms| && r == terms[..|r|]
    ensures accuracy.Some? && accuracy.value >= 0 ==>
      |r| == if accuracy.value <= |terms| then accuracy.value else |terms|
  {
    if accuracy.None? then terms else PySliceTo(terms, accuracy.value)
  }

  function Suffix(future: bool, ago: bool): string {
    if !future && ago then " ago" else ""
  }

  /** What `natural_timedelta` returns for a difference `d`; `future` says the target is after
      the reference time. */
  function Humanize(d: Delta, future: bool, accuracy: Option<int>, brief: bool, ago: bool): string {
    var terms := Truncate(RenderAll(DeltaParts(d), brief), accuracy);
    if terms == [] then "now"
    else if brief then Join(terms, " ") + Suffix(future, ago)
    else NaturalJoin(terms, ", ", "and") + Suffix(future, ago)
  }

  /** The attributes the source loops over; weeks are handled inside the day step. */
  const Attrs: seq<Unit> := [Year, Month, Day, Hour, Minute, Second]

  /** `getattr(delta, attr + 's')`. */
  function Field(d: Delta, u: Unit): nat {
    match u
    case Year => d.years
    case Month => d.months
    case Week => d.days / 7
    case Day => d.days
    case Hour => d.hours
    case Minute => d.minutes
    case Second => d.seconds
  }

  /** How many of the seven components the first `i` attributes cover (the day step covers two). */
  function Covered(i: nat): nat {
    if i <= 2 then i else i + 1
  }

  lemma NonZeroSnoc(cs: seq<Part>, k: nat)
    requires k < |cs|
    ensures NonZero(cs[..k + 1]) == NonZero(cs[..k]) + Keep(cs[k])
  {
    assert cs[..k + 1] == cs[..k] + [cs[k]];
    FilterAppend(cs[..k], [cs[k]], IsNonZero);
    NonZeroCons(cs[k], []);
    assert [cs[k]] + [] == [cs[k]];
  }

  lemma RenderKeep(a: seq<Part>, p: Part, brief: bool)
    ensures RenderAll(a + Keep(p), brief) == RenderAll(a, brief) + (if p.value != 0 then [Render(p, brief)] else [])
  {
    RenderAllAppend(a, Keep(p), brief);
  }

  /** The terms emitted for the first `i` attributes. */
  ghost function Emitted(d: Delta, i: nat, brief: bool): seq<string>
    requires i <= |Attrs|
  {
    RenderAll(NonZero(Components(d)[..Covered(i)]), brief)
  }

  function TermIf(p: Part, brief: bool): seq<string> {
    if p.value != 0 then [Render(p, brief)] else []
  }

  /** Attribute `i` (other than the day step) reads component `Covered(i)`. */
  lemma ComponentOfAttr(d: Delta, i: nat)
    requires i < |Attrs| && i != 2
    ensures Components(d)[Covered(i)] == Part(Field(d, Attrs[i]), Attrs[i])
  {
    var cs := Components(d);
    if i == 0 {
      assert cs[0] == Part(d.years, Year);
    } else if i == 1 {
      assert cs[1] == Part(d.months, Month);
    } else if i == 3 {
      assert cs[4] == Part(d.hours, Hour);
    } else if i == 4 {
      assert cs[5] == Part(d.minutes, Minute);
    } else {
      assert cs[6] == Part(d.seconds, Second);
    }
  }

  /** The day step is the third attribute. */
  lemma DayIsThird(i: nat)
    requires i < |Attrs|
    ensures Attrs[i] == Day <==> i == 2
  {
    if i == 0 {
      assert Attrs[0] == Year;
    } else if i == 1 {
      assert Attrs[1] == Month;
    } else if i == 3 {
      assert Attrs[3] == Hour;
    } else if i == 4 {
      assert Attrs[4] == Minute;
    } else if i == 5 {
      assert Attrs[5] == Second;
    }
  }

  lemma {:induction false} EmittedStep(d: Delta, i: nat, brief: bool)
    requires i < |Attrs| && i != 2
    ensures Emitted(d, i + 1, brief) == Emitted(d, i, brief) + TermIf(Part(Field(d, Attrs[i]), Attrs[i]), brief)
  {
    var cs := Components(d);
    var k := Covered(i);
    assert Covered(i + 1) == k + 1;
    ComponentOfAttr(d, i);
    NonZeroSnoc(cs, k);
    RenderKeep(NonZero(cs[..k]), cs[k], brief);
  }

  lemma {:induction false} EmittedDayStep(d: Delta, brief: bool)
    ensures Emitted(d, 3, brief) == Emitted(d, 2, brief) + TermIf(Part(d.days / 7, Week), brief) + TermIf(Part(d.days % 7, Day), brief)
  {
    var cs := Components(d);
    assert cs[2] == Part(d.days / 7, Week) && cs[3] == Part(d.days % 7, Day);
    var before := NonZero(cs[..2]);
    NonZeroSnoc(cs, 2);
    NonZeroSnoc(cs, 3);
    assert NonZero(cs[..4]) == before + Keep(cs[2]) + Keep(cs[3]);
    RenderKeep(before, cs[2], brief);
    RenderKeep(before + Keep(cs[2]), cs[3], brief);
    assert Emitted(d, 3, brief) == RenderAll(before + Keep(cs[2]) + Keep(cs[3]), brief);
  }

  lemma EmittedAll(d: Delta, brief: bool)
    ensures Emitted(d, |Attrs|, brief) == RenderAll(DeltaParts(d), brief)
  {
    assert Components(d)[..Covered(|Attrs|)] == Components(d);
  }

  /** The loop of `natural_timedelta`: builds the list of terms attribute by attribute,
      splitting weeks off the days and skipping zero components. */
  method CollectTerms(d: Delta, brief: bool) returns (output: seq<string>)
    ensures output == RenderAll(DeltaParts(d), brief)
  {
    output := [];
    for i := 0 to |Attrs|
      invariant output == Emitted(d, i, brief)
    {
      var attr := Attrs[i];
      var elem: int := Field(d, attr);
      DayIsThird(i);
      if attr == Day {
        EmittedDayStep(d, brief);
      } else {
        EmittedStep(d, i, brief);
      }
      if elem == 0 {
        continue;
      }
      if attr == Day {
        var weeks := d.days / 7;
        ghost var before := output;
        assert Word(Week) == "week";
        if weeks != 0 {
          elem := elem - weeks * 7;
          if !brief {
            output := output + [Plural(weeks, "week")];
          } else {
            output := output + [IntToString(weeks) + "w"];
          }
        }
        assert output == before + TermIf(Part(weeks, Week), brief);
        assert elem == d.days % 7;
      }
      if elem <= 0 {
        continue;
      }
      ghost var before := output;
      if brief {
        output := output + [IntToString(elem) + Abbrev(attr)];
      } else {
        output := output + [Plural(elem, Word(attr))];
      }
      assert output == before + TermIf(Part(elem, attr), brief);
    }
    EmittedAll(d, brief);
  }

  /** `natural_timedelta`: the terms of the difference, truncated to `accuracy`, joined, with
      the "now" sentinel and the " ago" suffix. */
  method NaturalTimedelta(d: Delta, future: bool, accuracy: Option<int>, brief: bool, ago: bool) returns (r: string)
    ensures r == Humanize(d, future, accuracy, brief, ago)
  {
    var suffix := if future then "" else if ago then " ago" else "";
    var output := CollectTerms(d, brief);
    if accuracy.Some? {
      output := PySliceTo(output, accuracy.value);
    }
    if output == [] {
      return "now";
    }
    if !brief {
      return NaturalJoin(output, ", ", "and") + suffix;
    }
    return Join(output, " ") + suffix;
  }

  // ---------------------------------------------------------------- properties of natural_timedelta

  /** Every emitted part is positive, in unit order, and no non-zero component is dropped. */
  lemma DeltaPartsShape(d: Delta)
    ensures forall i :: 0 <= i < |DeltaParts(d)| ==> DeltaParts(d)[i].value > 0
    ensures forall i :: 0 <= i < 7 && Components(d)[i].value != 0 ==> Components(d)[i] in DeltaParts(d)
    ensures IsSubsequence(DeltaParts(d), Components(d))
  {
    FilterMembers(Components(d), IsNonZero);
    FilterIsSubsequence(Components(d), IsNonZero);
    forall i | 0 <= i < |DeltaParts(d)|
      ensures DeltaParts(d)[i].value > 0
    {
      assert DeltaParts(d)[i] in Components(d);
    }
  }

  lemma DeltaPartsSplit(d: Delta)
    ensures DeltaParts(d) == NonZero(Components(d)[..2]) + Keep(Part(d.days / 7, Week))
                           + Keep(Part(d.days % 7, Day)) + NonZero(Components(d)[4..])
  {
    var cs := Components(d);
    NonZeroSnoc(cs, 2);
    NonZeroSnoc(cs, 3);
    assert cs == cs[..4] + cs[4..];
    FilterAppend(cs[..4], cs[4..], IsNonZero);
  }

  /** Whole weeks are taken out of the days: at least seven days give a week term, immediately
      followed by the remaining days, and a whole number of weeks gives no day term. */
  lemma {:induction false} WeeksSplitOffDays(d: Delta)
    requires d.days >= 7
    ensures var ps := DeltaParts(d); var w := |NonZero(Components(d)[..2])|;
      w < |ps| && ps[w] == Part(d.days / 7, Week) &&
      (d.days % 7 != 0 ==> w + 1 < |ps| && ps[w + 1] == Part(d.days % 7, Day))
    ensures d.days % 7 == 0 ==> forall i :: 0 <= i < |DeltaParts(d)| ==> DeltaParts(d)[i].unit != Day
  {
    var cs := Components(d);
    DeltaPartsSplit(d);
    if d.days % 7 == 0 {
      var head := NonZero(cs[..2]);
      var tail := NonZero(cs[4..]);
      FilterMembers(cs[..2], IsNonZero);
      FilterMembers(cs[4..], IsNonZero);
      assert DeltaParts(d) == head + [Part(d.days / 7, Week)] + tail;
      forall i | 0 <= i < |DeltaParts(d)|
        ensures DeltaParts(d)[i].unit != Day
      {
        if i < |head| {
          assert head[i] in cs[..2];
        } else if i > |head| {
          assert tail[i - |head| - 1] in cs[4..];
        }
      }
    }
  }

  /** The first character of a rendered positive value is a non-zero digit. */
  lemma TermStartsWithDigit(p: Part, brief: bool)
    requires p.value > 0
    ensures var t := Render(p, brief); |t| >= 1 && '1' <= t[0] <= '9'
  {
    RenderStartsWithValue(p, brief);
    assert IsDigit(NatToString(p.value)[0]);
  }

  lemma TruncatedTermsStartWithDigit(d: Delta, accuracy: Option<int>, brief: bool)
    ensures var terms := Truncate(RenderAll(DeltaParts(d), brief), accuracy);
      forall i :: 0 <= i < |terms| ==> |terms[i]| >= 1 && '1' <= terms[i][0] <= '9'
  {
    var all := RenderAll(DeltaParts(d), brief);
    var terms := Truncate(all, accuracy);
    DeltaPartsShape(d);
    forall i | 0 <= i < |terms|
      ensures |terms[i]| >= 1 && '1' <= terms[i][0] <= '9'
    {
      assert terms[i] == all[i];
      TermStartsWithDigit(DeltaParts(d)[i], brief);
    }
  }

  /** "now" is returned exactly when no term survives truncation. */
  lemma HumanizeNow(d: Delta, future: bool, accuracy: Option<int>, brief: bool, ago: bool)
    ensures Humanize(d, future, accuracy, brief, ago) == "now"
        <==> Truncate(RenderAll(DeltaParts(d), brief), accuracy) == []
  {
    var terms := Truncate(RenderAll(DeltaParts(d), brief), accuracy);
    var r := Humanize(d, future, accuracy, brief, ago);
    if terms != [] {
      TruncatedTermsStartWithDigit(d, accuracy, brief);
      var body := if brief then Join(terms, " ") else NaturalJoin(terms, ", ", "and");
      if brief {
        JoinStartsWithFirst(terms, " ");
      } else {
        NaturalJoinStartsWithFirst(terms, ", ", "and");
      }
      assert r == body + Suffix(future, ago);
      assert r[0] == terms[0][0];
      assert r[0] != "now"[0];
    }
  }

  /** A difference of zero reads "now", whatever the options. */
  lemma ZeroDeltaIsNow(future: bool, accuracy: Option<int>, brief: bool, ago: bool)
    ensures Humanize(Delta(0, 0, 0, 0, 0, 0), future, accuracy, brief, ago) == "now"
  {
    FilterNone(Components(Delta(0, 0, 0, 0, 0, 0)), IsNonZero);
  }

  /** Any non-zero component is reported when there is no accuracy limit. */
  lemma NonZeroDeltaIsNotNow(d: Delta, future: bool, brief: bool, ago: bool)
    requires d != Delta(0, 0, 0, 0, 0, 0)
    ensures Humanize(d, future, None, brief, ago) != "now"
  {
    DeltaPartsShape(d);
    var cs := Components(d);
    var i := if d.years != 0 then 0 else if d.months != 0 then 1 else if d.days / 7 != 0 then 2
             else if d.days % 7 != 0 then 3 else if d.hours != 0 then 4 else if d.minutes != 0 then 5 else 6;
    assert cs[i].value != 0;
    assert cs[i] in DeltaParts(d);
    HumanizeNow(d, future, None, brief, ago);
  }

  predicate EndsWith(s: string, t: string) {
    |t| <= |s| && s[|s| - |t|..] == t
  }

  lemma LastTwo(a: string, b: string)
    requires |b| >= 2
    ensures (a + b)[|a + b| - 1] == b[|b| - 1] && (a + b)[|a + b| - 2] == b[|b| - 2]
  {
  }

  /** A string whose last two characters are not "go" does not end in "go". */
  lemma NotGoTail(pre: string, tail: string)
    requires |tail| >= 2 && (tail[|tail| - 2] != 'g' || tail[|tail| - 1] != 'o')
    ensures |pre + tail| >= 2 && !EndsWith(pre + tail, "go")
  {
    var s := pre + tail;
    LastTwo(pre, tail);
    if EndsWith(s, "go") {
      assert s[|s| - 2..][0] == s[|s| - 2];
      assert s[|s| - 2..][1] == s[|s| - 1];
    }
  }

  lemma BriefTermNotGo(p: Part)
    ensures |Render(p, true)| >= 2 && !EndsWith(Render(p, true), "go")
  {
    var v := IntToString(p.value);
    var a := Abbrev(p.unit);
    if p.unit == Month {
      NotGoTail(v, a);
    } else {
      var tail := [v[|v| - 1]] + a;
      assert |a| == 1 && a[0] != 'o';
      assert v + a == v[..|v| - 1] + tail;
      NotGoTail(v[..|v| - 1], tail);
    }
  }

  lemma VerboseTermNotGo(p: Part)
    ensures |Render(p, false)| >= 2 && !EndsWith(Render(p, false), "go")
  {
    var w := Word(p.unit);
    var tail := " " + w + (if PyInt.Abs(p.value) == 1 then "" else "s");
    assert tail[|tail| - 1] != 'o';
    VerboseForm(p);
    NotGoTail(IntToString(p.value), tail);
  }

  /** No rendered term ends in "go", so a trailing " ago" can only come from the suffix. */
  lemma TermDoesNotEndInGo(p: Part, brief: bool)
    ensures |Render(p, brief)| >= 2 && !EndsWith(Render(p, brief), "go")
  {
    if brief {
      BriefTermNotGo(p);
    } else {
      VerboseTermNotGo(p);
    }
  }

  /** Joining keeps the last term's ending. */
  lemma JoinedDoesNotEndInGo(terms: seq<string>, brief: bool)
    requires terms != []
    requires var last := terms[|terms| - 1]; |last| >= 2 && !EndsWith(last, "go")
    ensures var body := if brief then Join(terms, " ") else NaturalJoin(terms, ", ", "and");
      |body| >= 2 && !EndsWith(body, "go")
  {
    var last := terms[|terms| - 1];
    var body := if brief then Join(terms, " ") else NaturalJoin(terms, ", ", "and");
    if brief {
      JoinEndsWithLast(terms, " ");
    } else {
      NaturalJoinEndsWithLast(terms, ", ", "and");
    }
    assert body[|body| - |last|..] == last;
    assert body[|body| - 2..] == last[|last| - 2..];
  }

  lemma SuffixAgo(body: string, future: bool, ago: bool)
    requires |body| >= 2 && !EndsWith(body, "go")
    ensures EndsWith(body + Suffix(future, ago), " ago") <==> !future && ago
  {
    var r := body + Suffix(future, ago);
    if !future && ago {
      assert r[|r| - 4..] == " ago";
    } else {
      assert r == body;
      if |r| >= 4 {
        assert r[|r| - 4..][2..] == r[|r| - 2..];
      }
    }
  }

  /** Whatever is not "now" ends in " ago" exactly for a past target with `ago` set. */
  lemma HumanizeAgo(d: Delta, future: bool, accuracy: Option<int>, brief: bool, ago: bool)
    requires Humanize(d, future, accuracy, brief, ago) != "now"
    ensures EndsWith(Humanize(d, future, accuracy, brief, ago), " ago") <==> !future && ago
  {
    var terms := Truncate(RenderAll(DeltaParts(d), brief), accuracy);
    var body := if brief then Join(terms, " ") else NaturalJoin(terms, ", ", "and");
    assert Humanize(d, future, accuracy, brief, ago) == body + Suffix(future, ago);
    assert terms[|terms| - 1] == Render(DeltaParts(d)[|terms| - 1], brief);
    TermDoesNotEndInGo(DeltaParts(d)[|terms| - 1], brief);
    JoinedDoesNotEndInGo(terms, brief);
    SuffixAgo(body, future, ago);
  }

  /** A brief term is digits and a unit letter or two: no comma, no space, no 'a'. */
  lemma BriefTermChars(p: Part)
    requires p.value > 0
    ensures var t := Render(p, true); ',' !in t && ' ' !in t && 'a' !in t
  {
    var v := IntToString(p.value);
    assert v == NatToString(p.value);
    assert Render(p, true) == v + Abbrev(p.unit);
    assert ',' !in v && ' ' !in v && 'a' !in v;
  }

  /** Brief output is the terms joined by single spaces, none of which holds a space itself; it
      never contains a comma, and without the " ago" suffix no 'a' either, so no "and". */
  lemma BriefHasNoComma(d: Delta, future: bool, accuracy: Option<int>, ago: bool)
    ensures ',' !in Humanize(d, future, accuracy, true, ago)
    ensures future || !ago ==> 'a' !in Humanize(d, future, accuracy, true, ago)
    ensures var terms := Truncate(RenderAll(DeltaParts(d), true), accuracy);
      (forall i :: 0 <= i < |terms| ==> ' ' !in terms[i])
      && (terms != [] ==> Humanize(d, future, accuracy, true, ago) == Join(terms, " ") + Suffix(future, ago))
  {
    var terms := Truncate(RenderAll(DeltaParts(d), true), accuracy);
    DeltaPartsShape(d);
    forall i | 0 <= i < |terms|
      ensures ',' !in terms[i] && ' ' !in terms[i] && 'a' !in terms[i]
    {
      BriefTermChars(DeltaParts(d)[i]);
    }
    JoinAvoids(terms, " ", ',');
    JoinAvoids(terms, " ", 'a');
  }

  /** A difference made of days alone. */
  predicate DaysOnly(d: Delta) {
    d.years == 0 && d.months == 0 && d.hours == 0 && d.minutes == 0 && d.seconds == 0
  }

  lemma DaysOnlyParts(d: Delta)
    requires DaysOnly(d) && d.days >= 7
    ensures DeltaParts(d) == [Part(d.days / 7, Week)] + Keep(Part(d.days % 7, Day))
  {
    var cs := Components(d);
    DeltaPartsSplit(d);
    assert cs[..2] == [Part(0, Year), Part(0, Month)];
    NonZeroCons(Part(0, Year), [Part(0, Month)]);
    NonZeroCons(Part(0, Month), []);
    assert cs[4..] == [Part(0, Hour), Part(0, Minute), Part(0, Second)];
    NonZeroCons(Part(0, Hour), [Part(0, Minute), Part(0, Second)]);
    NonZeroCons(Part(0, Minute), [Part(0, Second)]);
    NonZeroCons(Part(0, Second), []);
  }

  /** A difference of nine days, say, reads "1 week and 2 days" ... */
  lemma WeeksAndDays(d: Delta, future: bool, ago: bool)
    requires DaysOnly(d) && d.days >= 7 && d.days % 7 != 0
    ensures Humanize(d, future, Some(3), false, ago)
         == Plural(d.days / 7, "week") + " and " + Plural(d.days % 7, "day") + Suffix(future, ago)
  {
    DaysOnlyParts(d);
    assert DeltaParts(d) == [Part(d.days / 7, Week), Part(d.days % 7, Day)];
    RenderVerboseTwo(Part(d.days / 7, Week), Part(d.days % 7, Day));
    assert Word(Week) == "week" && Word(Day) == "day";
    HumanizeTwoTerms(d, future, ago, Plural(d.days / 7, "week"), Plural(d.days % 7, "day"));
  }

  /** Two verbose terms are joined by "and". */
  lemma HumanizeTwoTerms(d: Delta, future: bool, ago: bool, a: string, b: string)
    requires RenderAll(DeltaParts(d), false) == [a, b]
    ensures Humanize(d, future, Some(3), false, ago) == a + " and " + b + Suffix(future, ago)
  {
    assert Truncate([a, b], Some(3)) == [a, b];
    NaturalJoinTwo(a, b);
  }

  /** ... while a whole number of weeks reads "2 weeks", with no "0 days". */
  lemma WholeWeeks(d: Delta, future: bool, ago: bool)
    requires DaysOnly(d) && d.days >= 7 && d.days % 7 == 0
    ensures Humanize(d, future, Some(3), false, ago) == Plural(d.days / 7, "week") + Suffix(future, ago)
  {
    DaysOnlyParts(d);
    assert DeltaParts(d) == [Part(d.days / 7, Week)];
    assert Word(Week) == "week";
  }

  // ---------------------------------------------------------------- uptime

  /** `uptime`: before the start time is known the reply says so; afterwards it is the elapsed time
      humanized without truncation and without " ago". */
  function Uptime(elapsed: Option<Delta>, brief: bool): string {
    if elapsed.None? then (if brief then "Not up yet" else "I'm not up yet.")
    else
      var h := Humanize(elapsed.value, false, None, brief, false);
      if brief then h else "I've been up for " + h + "."
  }

  /** The uptime reply never carries the " ago" suffix. */
  lemma UptimeNeverAgo(elapsed: Delta, brief: bool)
    ensures var h := Humanize(elapsed, false, None, brief, false);
      h != "now" ==> !EndsWith(h, " ago")
  {
    if Humanize(elapsed, false, None, brief, false) != "now" {
      HumanizeAgo(elapsed, false, None, brief, false);
    }
  }

  lemma UpForIsNotNotUp(h: string)
    ensures "I've been up for " + h + "." != "I'm not up yet."
  {
    var u := "I've been up for " + h + ".";
    assert u[2] == 'v';
  }

  lemma BriefUptimeStartsWithDigit(elapsed: Delta)
    requires elapsed != Delta(0, 0, 0, 0, 0, 0)
    ensures var u := Uptime(Some(elapsed), true); |u| >= 1 && '1' <= u[0] <= '9'
  {
    var terms := RenderAll(DeltaParts(elapsed), true);
    NonZeroDeltaIsNotNow(elapsed, false, true, false);
    HumanizeNow(elapsed, false, None, true, false);
    TruncatedTermsStartWithDigit(elapsed, None, true);
    JoinStartsWithFirst(terms, " ");
    assert Uptime(Some(elapsed), true) == Join(terms, " ") + "";
  }

  /** Once started with some time elapsed, the reply differs from the "not up" one. */
  lemma UptimeOnceStarted(elapsed: Delta, brief: bool)
    requires elapsed != Delta(0, 0, 0, 0, 0, 0)
    ensures Uptime(Some(elapsed), brief) != Uptime(None, brief)
  {
    if brief {
      BriefUptimeStartsWithDigit(elapsed);
      assert Uptime(None, true)[0] == 'N';
    } else {
      UpForIsNotNotUp(Humanize(elapsed, false, None, false, false));
    }
  }
}
