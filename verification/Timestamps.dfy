/**
 The timestamps of the broker's tables. Rows hold RFC 3339 text with up to nine fraction
 digits and trailing zeros removed; cutoffs are whole-second RFC 3339 text; SQL compares
 the two as text. Section 5.1 of RFC 3339 makes that order the time order only when the
 fractions have equal width, so this module says exactly what the comparison decides.
 */
module Timestamps {
  import opened TextOrder

  const SECOND: nat := 1_000_000_000
  const DAY_SECONDS: nat := 86_400
  const MINUTE: nat := 60 * SECOND
  const HOUR: nat := 3_600 * SECOND
  /** Seconds from the start of year 0 to the start of 1970 and of year 10000. */
  const EPOCH_SECONDS: nat := 62_167_219_200
  const END_SECONDS: nat := 315_569_520_000

  /** Nanoseconds since the start of year 0, within the four-digit years. */
  type Instant = t: int | 0 <= t < 315_569_520_000 * 1_000_000_000

  /** What the broker's clock can show: 1970 or later. */
  type Clock = t: int | 62_167_219_200 * 1_000_000_000 <= t < 315_569_520_000 * 1_000_000_000
    witness 62_167_219_200 * 1_000_000_000

  /** A span that can be subtracted from every clock reading. */
  type Span = d: int | 0 <= d <= 62_167_219_200 * 1_000_000_000

  function Ago(now: Clock, span: Span): Instant {
    now - span
  }

  // ---------------------------------------------------------------- the text

  /** Drops the trailing zeros of a run of digits, from the right. */
  function TrimZeros(s: string): (r: string)
    ensures r <= s
  {
    if s == "" then ""
    else if s[|s| - 1] == '0' then TrimZeros(s[..|s| - 1])
    else s
  }

  function FractionDigits(t: nat): string {
    TrimZeros(Pad(t % SECOND, 9))
  }

  function Fraction(t: nat): string {
    if t % SECOND == 0 then "" else "." + FractionDigits(t)
  }

  /** The text of a whole second: nineteen characters of date and time of day. */
  type Stamping = nat -> string

  /** Stamps of the four-digit years have one width and sort as their seconds do (RFC 3339, section 5.1). */
  ghost predicate Sorts(stamp: Stamping) {
    && (forall s: nat, t: nat :: |stamp(s)| == |stamp(t)|)
    && (forall s: nat, t: nat :: s < END_SECONDS && t < END_SECONDS ==>
          (Less(stamp(s), stamp(t)) <==> s < t) && (stamp(s) == stamp(t) <==> s == t))
  }

  /** The layout of the rows: RFC 3339 with trimmed nanoseconds, in UTC. */
  function RowText(stamp: Stamping, t: nat): string {
    stamp(t / SECOND) + (Fraction(t) + "Z")
  }

  /** The layout of the cutoffs: RFC 3339 to the second, the fraction cut off. */
  function CutoffText(stamp: Stamping, t: nat): string {
    stamp(t / SECOND) + "Z"
  }

  lemma Pow10Values()
    ensures Pow10(2) == 100 && Pow10(4) == 10_000 && Pow10(9) == SECOND
  {
    assert Pow10(3) == 1000;
    assert Pow10(6) == 1000 * Pow10(3);
    assert Pow10(9) == 1000 * Pow10(6);
  }

  // ---------------------------------------------------------------- what text order decides

  /** Seconds decide first; inside one second the fraction texts do. */
  lemma RowsBySecond(stamp: Stamping, a: Instant, b: Instant)
    requires Sorts(stamp)
    ensures Less(RowText(stamp, a), RowText(stamp, b)) <==>
            a / SECOND < b / SECOND || (a / SECOND == b / SECOND && Less(Fraction(a) + "Z", Fraction(b) + "Z"))
  {
    hide Fraction;
    LessConcat(stamp(a / SECOND), stamp(b / SECOND), Fraction(a) + "Z", Fraction(b) + "Z");
  }

  lemma {:induction false} TrimCons(s: string)
    requires s != ""
    ensures TrimZeros(s) == if s[0] == '0' && TrimZeros(s[1..]) == "" then "" else [s[0]] + TrimZeros(s[1..])
  {
    if |s| > 1 && s[|s| - 1] == '0' {
      var init := s[..|s| - 1];
      TrimCons(init);
      assert init[1..] == s[1..][..|s| - 2];
      assert s[1..][|s[1..]| - 1] == '0';
    } else if |s| == 1 {
      assert s[1..] == "" && s[..0] == "" && s == [s[0]];
    } else {
      assert s[1..][|s[1..]| - 1] != '0';
      assert s == [s[0]] + s[1..];
    }
  }

  /** Two texts compare by their first characters, and when those agree by the rest. */
  lemma ByHead(c: char, d: char, s: string, t: string)
    ensures Less([c] + s + "Z", [d] + t + "Z") <==> c < d || (c == d && Less(s + "Z", t + "Z"))
    ensures [c] + s <= [d] + t <==> c == d && s <= t
  {
    assert ([c] + s + "Z")[1..] == s + "Z" && ([d] + t + "Z")[1..] == t + "Z";
    assert ([c] + s)[1..] == s && ([d] + t)[1..] == t;
    if c == d && s <= t {
      assert [d] + t == [c] + s + t[|s|..];
    }
  }

  /** Digits are below the 'Z' that ends a timestamp, so a trimmed prefix sorts last. */
  lemma {:induction false} TrimmedOrder(a: string, b: string)
    requires |a| == |b| && Digits(a) && Digits(b) && Less(a, b)
    ensures Less(TrimZeros(a) + "Z", TrimZeros(b) + "Z") <==> !(TrimZeros(a) <= TrimZeros(b))
    ensures TrimZeros(b) != ""
  {
    assert a[0] <= b[0];
    hide TrimZeros;
    TrimCons(a);
    TrimCons(b);
    if a[0] == b[0] {
      TrimmedOrder(a[1..], b[1..]);
    }
    if TrimZeros(a) != "" {
      hide Less;
      ByHead(a[0], b[0], TrimZeros(a[1..]), TrimZeros(b[1..]));
    } else {
      assert (TrimZeros(a) + "Z")[0] == 'Z' && '0' <= (TrimZeros(b) + "Z")[0] <= '9';
    }
  }

  /** The trimmed digits of two fractions, compared as they end: before the 'Z'. */
  lemma FractionDigitsOrder(a: nat, b: nat)
    requires a % SECOND < b % SECOND
    ensures Less(FractionDigits(a) + "Z", FractionDigits(b) + "Z") <==> !(FractionDigits(a) <= FractionDigits(b))
    ensures FractionDigits(a) != FractionDigits(b)
    ensures a % SECOND == 0 ==> FractionDigits(a) == ""
  {
    var pa, pb := Pad(a % SECOND, 9), Pad(b % SECOND, 9);
    Pow10Values();
    PadLess(a % SECOND, b % SECOND, 9);
    hide Less, TrimZeros, Pad;
    LessIsStrict(pa, pb);
    TrimmedOrder(pa, pb);
    if TrimZeros(pa) == TrimZeros(pb) {
      TrimIsInjective(pa, pb);
    }
    ZeroFraction(9);
  }

  lemma BehindADot(s: string, t: string)
    ensures Less("." + s, "." + t) <==> Less(s, t)
    ensures !Less("Z", "." + s)
  {
    LessConcat(".", ".", s, t);
    LessIsStrict(".", ".");
  }

  lemma EndsDiffer(s: string, t: string)
    requires s != t
    ensures s + "Z" != t + "Z"
  {
    assert s == (s + "Z")[..|s|] && t == (t + "Z")[..|t|];
  }

  /** The same for the fractions with the dot in front, which a whole second does not have. */
  lemma FractionOrder(a: nat, b: nat)
    requires a % SECOND < b % SECOND
    ensures Less(Fraction(a) + "Z", Fraction(b) + "Z") <==> !(FractionDigits(a) <= FractionDigits(b))
    ensures Fraction(a) + "Z" != Fraction(b) + "Z"
  {
    hide FractionDigits, Less;
    var da, db := FractionDigits(a), FractionDigits(b);
    FractionDigitsOrder(a, b);
    EndsDiffer(da, db);
    assert Fraction(b) + "Z" == "." + (db + "Z");
    if a % SECOND == 0 {
      BehindADot(db + "Z", db + "Z");
      assert Fraction(a) + "Z" == "Z" && (Fraction(b) + "Z")[0] != 'Z';
    } else {
      assert Fraction(a) + "Z" == "." + (da + "Z");
      BehindADot(da + "Z", db + "Z");
      assert ("." + (da + "Z"))[1..] == da + "Z" && ("." + (db + "Z"))[1..] == db + "Z";
    }
  }

  /**
   Inside one second the text order of two rows is their time order exactly when the earlier
   row's trimmed fraction is not a prefix of the later one's; when it is, the order is reversed.
   */
  lemma TextOrderWithinASecond(stamp: Stamping, a: Instant, b: Instant)
    requires Sorts(stamp) && a < b && a / SECOND == b / SECOND
    ensures Less(RowText(stamp, a), RowText(stamp, b)) <==> !(FractionDigits(a) <= FractionDigits(b))
    ensures Less(RowText(stamp, b), RowText(stamp, a)) <==> FractionDigits(a) <= FractionDigits(b)
  {
    assert a % SECOND < b % SECOND by {
      assert a == SECOND * (a / SECOND) + a % SECOND && b == SECOND * (b / SECOND) + b % SECOND;
    }
    hide RowText, Fraction, FractionDigits, Sorts;
    RowsBySecond(stamp, a, b);
    RowsBySecond(stamp, b, a);
    FractionOrder(a, b);
    LessIsTotal(Fraction(a) + "Z", Fraction(b) + "Z");
    LessIsStrict(Fraction(a) + "Z", Fraction(b) + "Z");
  }

  lemma {:induction false} TrimIsInjective(a: string, b: string)
    requires |a| == |b| && TrimZeros(a) == TrimZeros(b)
    ensures a == b
  {
    if a != "" {
      TrimCons(a);
      TrimCons(b);
      var ta, tb := TrimZeros(a[1..]), TrimZeros(b[1..]);
      assert ([a[0]] + ta)[1..] == ta && ([b[0]] + tb)[1..] == tb;
      TrimIsInjective(a[1..], b[1..]);
      assert a == [a[0]] + a[1..] && b == [b[0]] + b[1..];
    }
  }

  lemma PadZero(w: nat)
    ensures Pad(0, w) == if w == 0 then "" else Pad(0, w - 1) + ['0']
  {
  }

  lemma {:induction false} ZeroFraction(w: nat)
    ensures TrimZeros(Pad(0, w)) == ""
  {
    PadZero(w);
    hide Pad;
    if w > 0 {
      ZeroFraction(w - 1);
      assert Pad(0, w)[..w - 1] == Pad(0, w - 1);
    }
  }

  /** Trimming keeps the fraction: padded back with zeros its digits are the number they were. */
  lemma {:induction false} TrimReads(s: string)
    requires Digits(s)
    ensures var r := TrimZeros(s);
            && Digits(r) && NumberIn(r) * Pow10(|s| - |r|) == NumberIn(s)
            && (r != "" ==> r[|r| - 1] != '0')
  {
    assert Pow10(0) == 1;
    if s != "" && s[|s| - 1] == '0' {
      var init := s[..|s| - 1];
      var r := TrimZeros(init);
      assert TrimZeros(s) == r && NumberIn(s) == 10 * NumberIn(init);
      TrimReads(init);
      hide NumberIn, TrimZeros;
      PadTimesTen(NumberIn(r), |init| - |r|);
    }
  }

  lemma PadTimesTen(n: nat, w: nat)
    ensures n * Pow10(w + 1) == 10 * (n * Pow10(w))
  {
  }

  /** The fraction digits of an instant, padded back to nine, are its nanoseconds; none is written for nothing. */
  lemma FractionReads(t: nat)
    ensures var d := FractionDigits(t);
            && Digits(d) && |d| <= 9 && NumberIn(d) * Pow10(9 - |d|) == t % SECOND
            && (d != "" ==> d[|d| - 1] != '0') && (d == "" <==> t % SECOND == 0)
  {
    Pow10Values();
    hide Pow10, Pad, TrimZeros, NumberIn;
    TrimmedFieldReads(t % SECOND, 9);
  }

  lemma TrimmedFieldReads(n: nat, w: nat)
    requires n < Pow10(w)
    ensures var d := TrimZeros(Pad(n, w));
            && Digits(d) && |d| <= w && NumberIn(d) * Pow10(w - |d|) == n
            && (d != "" ==> d[|d| - 1] != '0') && (d == "" <==> n == 0)
  {
    hide Pow10, Pad, TrimZeros, NumberIn;
    PadReads(n, w);
    TrimReads(Pad(n, w));
    ZeroFraction(w);
    NoDigits();
  }

  lemma NoDigits()
    ensures NumberIn("") == 0
  {
  }

  /** Different seconds, or one second with the earlier fraction no prefix of the later. */
  predicate TextSortable(a: Instant, b: Instant) {
    a / SECOND != b / SECOND || !(FractionDigits(if a < b then a else b) <= FractionDigits(if a < b then b else a))
  }

  /** Text order is time order for exactly the sortable pairs, and reversed for all others. */
  lemma TextSortableExactly(stamp: Stamping, a: Instant, b: Instant)
    requires Sorts(stamp) && a != b
    ensures Less(RowText(stamp, a), RowText(stamp, b)) <==> (a < b <==> TextSortable(a, b))
    ensures Less(RowText(stamp, b), RowText(stamp, a)) <==> !Less(RowText(stamp, a), RowText(stamp, b))
  {
    hide RowText, Fraction, FractionDigits, Sorts;
    if a / SECOND != b / SECOND {
      SecondsDecide(a, b);
      RowsBySecond(stamp, a, b);
      RowsBySecond(stamp, b, a);
    } else if a < b {
      TextOrderWithinASecond(stamp, a, b);
    } else {
      TextOrderWithinASecond(stamp, b, a);
    }
  }

  lemma SecondsDecide(a: nat, b: nat)
    requires a / SECOND != b / SECOND
    ensures a / SECOND < b / SECOND <==> a < b
  {
  }

  /** A pair of instants 20 ns apart whose rows compare the wrong way round. */
  lemma TextOrderCanReverse(stamp: Stamping)
    requires Sorts(stamp)
    ensures exists a: Instant, b: Instant :: a < b && Less(RowText(stamp, b), RowText(stamp, a))
  {
    var a: Instant := EPOCH_SECONDS * SECOND;
    var b: Instant := a + 20;
    assert a % SECOND == 0 && a / SECOND == b / SECOND;
    hide RowText;
    ZeroFraction(9);
    TextOrderWithinASecond(stamp, a, b);
  }

  /**
   A row is below a whole-second cutoff exactly when it was written in an earlier second, or
   in the cutoff's own second with a nonzero fraction.
   */
  lemma RowBelowCutoff(stamp: Stamping, t: Instant, c: Instant)
    requires Sorts(stamp)
    ensures Less(RowText(stamp, t), CutoffText(stamp, c)) <==>
            t / SECOND < c / SECOND || (t / SECOND == c / SECOND && t % SECOND != 0)
  {
    hide FractionDigits;
    LessConcat(stamp(t / SECOND), stamp(c / SECOND), Fraction(t) + "Z", "Z");
    if t % SECOND == 0 {
      LessIsStrict("Z", "Z");
    } else {
      assert Fraction(t) + "Z" == "." + (FractionDigits(t) + "Z");
    }
  }

  // ---------------------------------------------------------------- formats

  /** How a process writes an instant into a row and into a cutoff. */
  datatype Format = Format(row: nat -> string, cutoff: nat -> string)

  function Rfc3339(stamp: Stamping): Format {
    Format((t: nat) => RowText(stamp, t), (c: nat) => CutoffText(stamp, c))
  }

  /** Row texts and cutoffs compare exactly as RFC 3339 texts of these layouts do, no better and no worse. */
  ghost predicate Faithful(f: Format) {
    && (forall t: Instant, c: Instant ::
          Less(f.row(t), f.cutoff(c)) <==> t / SECOND < c / SECOND || (t / SECOND == c / SECOND && t % SECOND != 0))
    && (forall a: Instant, b: Instant :: a != b ==> (Less(f.row(a), f.row(b)) <==> (a < b <==> TextSortable(a, b))))
  }

  lemma Rfc3339IsFaithful(stamp: Stamping)
    requires Sorts(stamp)
    ensures Faithful(Rfc3339(stamp))
  {
    hide RowText, CutoffText, TextSortable, Sorts;
    forall t: Instant, c: Instant
      ensures Less(Rfc3339(stamp).row(t), Rfc3339(stamp).cutoff(c)) <==>
              t / SECOND < c / SECOND || (t / SECOND == c / SECOND && t % SECOND != 0)
    {
      RowBelowCutoff(stamp, t, c);
    }
    forall a: Instant, b: Instant | a != b
      ensures Less(Rfc3339(stamp).row(a), Rfc3339(stamp).row(b)) <==> (a < b <==> TextSortable(a, b))
    {
      TextSortableExactly(stamp, a, b);
    }
  }

  /** What a faithful format says of two rows. */
  lemma RowOrder(f: Format, a: Instant, b: Instant)
    requires Faithful(f) && a != b
    ensures Less(f.row(a), f.row(b)) <==> (a < b <==> TextSortable(a, b))
    ensures TextSortable(a, b) <==> TextSortable(b, a)
    ensures a / SECOND != b / SECOND ==> TextSortable(a, b)
  {
    hide FractionDigits;
  }

  lemma SecondsApart(t: nat, c: nat)
    ensures t / SECOND < c / SECOND || (t / SECOND == c / SECOND && t % SECOND != 0) ==> t < c + SECOND
    ensures c >= t + SECOND ==> t / SECOND < c / SECOND
  {
    var qt, rt, qc, rc := t / SECOND, t % SECOND, c / SECOND, c % SECOND;
    assert t == SECOND * qt + rt && c == SECOND * qc + rc;
  }

  /**
   The age test `row < now - span` is off by less than one second either way: what it removes
   is older than span - 1s, and whatever is span + 1s old it removes.
   */
  lemma AgeTestWithinOneSecond(f: Format, t: Instant, now: Clock, span: Span)
    requires Faithful(f)
    ensures Less(f.row(t), f.cutoff(Ago(now, span))) ==> now - t > span - SECOND
    ensures now - t >= span + SECOND ==> Less(f.row(t), f.cutoff(Ago(now, span)))
  {
    SecondsApart(t, Ago(now, span));
  }
}
