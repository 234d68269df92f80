/**
 A setup as the token results ask for: claims written out as text, one way only, so that reading
 a signed token gives its claims back.
 */
module TokenSetup {
  import opened Options
  import opened Timestamps
  import opened Calendar
  import opened Tokens

  // ---------------------------------------------------------------- text that ends itself

  function Quote(s: string): string {
    if s == "" then "y" else "x" + ([s[0]] + Quote(s[1..]))
  }

  lemma {:induction false} QuoteEnds(a: string, b: string, r: string, q: string)
    requires Quote(a) + r == Quote(b) + q
    ensures a == b && r == q
  {
    assert (Quote(a) + r)[0] == (Quote(b) + q)[0];
    assert (Quote(a) + r)[1..] == (Quote(b) + q)[1..];
    if a == "" {
      assert ("y" + r)[1..] == r && ("y" + q)[1..] == q;
    } else {
      var ra, rb := Quote(a[1..]) + r, Quote(b[1..]) + q;
      assert (Quote(a) + r)[1..] == [a[0]] + ra && (Quote(b) + q)[1..] == [b[0]] + rb;
      assert ([a[0]] + ra)[1..] == ra && ([b[0]] + rb)[1..] == rb;
      QuoteEnds(a[1..], b[1..], r, q);
      assert a == [a[0]] + a[1..] && b == [b[0]] + b[1..];
    }
  }

  function QuoteAll(texts: seq<string>): string {
    if texts == [] then "y" else "x" + (Quote(texts[0]) + QuoteAll(texts[1..]))
  }

  lemma {:induction false} QuoteAllEnds(a: seq<string>, b: seq<string>, r: string, q: string)
    requires QuoteAll(a) + r == QuoteAll(b) + q
    ensures a == b && r == q
  {
    hide Quote;
    assert (QuoteAll(a) + r)[0] == (QuoteAll(b) + q)[0];
    assert (QuoteAll(a) + r)[1..] == (QuoteAll(b) + q)[1..];
    if a == [] {
      assert ("y" + r)[1..] == r && ("y" + q)[1..] == q;
    } else {
      var ra, rb := QuoteAll(a[1..]) + r, QuoteAll(b[1..]) + q;
      assert (QuoteAll(a) + r)[1..] == Quote(a[0]) + ra && (QuoteAll(b) + q)[1..] == Quote(b[0]) + rb;
      QuoteEnds(a[0], b[0], ra, rb);
      QuoteAllEnds(a[1..], b[1..], r, q);
      assert a == [a[0]] + a[1..] && b == [b[0]] + b[1..];
    }
  }

  /** A date as that many strokes in a list of one text; no date as the empty list. */
  function Strokes(d: Option<NumericDate>): seq<string> {
    if d.None? then [] else [seq(d.value, i => '|')]
  }

  lemma StrokesDiffer(a: Option<NumericDate>, b: Option<NumericDate>)
    requires Strokes(a) == Strokes(b)
    ensures a == b
  {
    if a.Some? && b.Some? {
      assert |Strokes(a)[0]| == a.value && |Strokes(b)[0]| == b.value;
    }
  }

  // ---------------------------------------------------------------- claims as text

  function Fields(c: Claims): seq<seq<string>> {
    [[c.issuer], c.audience, [c.subject], Strokes(c.issuedAt), Strokes(c.notBefore), Strokes(c.expiresAt),
     c.capabilities, [c.proof]]
  }

  lemma FieldsDiffer(c: Claims, d: Claims)
    requires Fields(c) == Fields(d)
    ensures c == d
  {
    var a, b := Fields(c), Fields(d);
    assert a[0][0] == b[0][0] && a[1] == b[1] && a[2][0] == b[2][0] && a[6] == b[6] && a[7][0] == b[7][0];
    assert a[3] == b[3] && a[4] == b[4] && a[5] == b[5];
    hide Strokes;
    StrokesDiffer(c.issuedAt, d.issuedAt);
    StrokesDiffer(c.notBefore, d.notBefore);
    StrokesDiffer(c.expiresAt, d.expiresAt);
  }

  function Joined(fields: seq<seq<string>>): string {
    if fields == [] then "" else QuoteAll(fields[0]) + Joined(fields[1..])
  }

  lemma {:induction false} JoinedEnds(a: seq<seq<string>>, b: seq<seq<string>>)
    requires |a| == |b| && Joined(a) == Joined(b)
    ensures a == b
  {
    hide QuoteAll;
    if a != [] {
      QuoteAllEnds(a[0], b[0], Joined(a[1..]), Joined(b[1..]));
      JoinedEnds(a[1..], b[1..]);
      assert a == [a[0]] + a[1..] && b == [b[0]] + b[1..];
    }
  }

  function Signed(c: Claims): string {
    Joined(Fields(c))
  }

  ghost function Read(token: string): Option<Claims> {
    if c :| Signed(c) == token then Some(c) else None
  }

  lemma ReadsWhatWasSigned(c: Claims)
    ensures Read(Signed(c)) == Some(c)
  {
    var d := Read(Signed(c)).value;
    assert |Fields(c)| == |Fields(d)|;
    hide Fields, Joined;
    JoinedEnds(Fields(c), Fields(d));
    FieldsDiffer(c, d);
  }

  // ---------------------------------------------------------------- the setup

  /** Keys and their texts are the same here; a signed text is genuine; a hash is the text with a letter in front. */
  ghost function Example(rootKey: string): Setup {
    Setup(
      token => Read(token),
      token => Read(token).Some?,
      token => "h" + token,
      key => Some(key),
      key => key,
      c => Signed(c),
      Rfc3339(Stamp),
      rootKey,
      Signed(Claims(rootKey, [rootKey], SUBJECT, None, None, None, ALL_CAPABILITIES, "")))
  }

  /** What the token results ask of a setup can be met. */
  lemma ExampleIsSound(rootKey: string)
    ensures Sound(Example(rootKey))
  {
    hide Read, Signed, Faithful, Rfc3339, SetOf;
    UtcIsFaithful();
    forall c ensures Read(Signed(c)) == Some(c) {
      ReadsWhatWasSigned(c);
    }
    forall a: string, b: string | "h" + a == "h" + b ensures a == b {
      assert ("h" + a)[1..] == a && ("h" + b)[1..] == b;
    }
  }
}
