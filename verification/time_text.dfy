/**
  The text the health bar writes: the status label and the time message, as
  the page's template literals produce them, together with a parser used as
  their inverse, so that distinct displays are shown to yield distinct text.
*/
module TimeText {
  import opened Wrappers
  import opened Freshness

  predicate IsDigit(c: char) {
    '0' <= c <= '9'
  }

  predicate AllDigits(s: string) {
    forall i :: 0 <= i < |s| ==> IsDigit(s[i])
  }

  function DigitChar(d: int): (c: char)
    requires 0 <= d < 10
    ensures IsDigit(c)
    ensures c as int - '0' as int == d
  {
    ('0' as int + d) as char
  }

  function DigitValue(c: char): (d: nat)
    requires IsDigit(c)
    ensures d < 10
  {
    c as int - '0' as int
  }

  /** The form `${n}` gives a non-negative integer: at least one digit, and
      no leading zero. */
  predicate Canonical(s: string) {
    1 <= |s| && AllDigits(s) && (|s| > 1 ==> s[0] != '0')
  }

  /** Decimal notation of a non-negative integer, as `${n}` writes it. */
  function Decimal(n: nat): (s: string)
    ensures Canonical(s)
  {
    if n < 10 then [DigitChar(n)] else Decimal(n / 10) + [DigitChar(n % 10)]
  }

  /** Value of a string of decimal digits. */
  function ParseDecimal(s: string): nat
    requires AllDigits(s)
  {
    if |s| == 0 then 0 else ParseDecimal(s[..|s| - 1]) * 10 + DigitValue(s[|s| - 1])
  }

  lemma {:induction false} DecimalRoundTrip(n: nat)
    ensures ParseDecimal(Decimal(n)) == n
  {
    if n >= 10 {
      var s := Decimal(n);
      assert s[..|s| - 1] == Decimal(n / 10);
      DecimalRoundTrip(n / 10);
    }
  }

  /** A digit string that does not start with '0' has a positive value. */
  lemma {:induction false} ParseDecimalPositive(s: string)
    requires 1 <= |s| && AllDigits(s) && s[0] != '0'
    ensures ParseDecimal(s) >= 1
  {
    if |s| > 1 {
      var p := s[..|s| - 1];
      assert p[0] == s[0];
      ParseDecimalPositive(p);
    }
  }

  /** Every canonical digit string is the decimal text of its value. */
  lemma {:induction false} DecimalOfParse(s: string)
    requires Canonical(s)
    ensures Decimal(ParseDecimal(s)) == s
  {
    if |s| > 1 {
      var p := s[..|s| - 1];
      assert p[0] == s[0];
      ParseDecimalPositive(p);
      DecimalOfParse(p);
      var n := ParseDecimal(s);
      assert n / 10 == ParseDecimal(p) && n % 10 == DigitValue(s[|s| - 1]);
      assert s == p + [s[|s| - 1]];
    }
  }

  /** The status label text the page writes for each status. */
  function StatusLabel(s: Status): (r: string)
    ensures ParseStatusLabel(r) == Some(s)
  {
    match s
    case FreshAndReady => "Fresh & Ready!"
    case OpeningSoon => "Opening Soon!"
    case FreshAndPlenty => "Fresh & Plenty!"
    case GettingLow => "Getting Low"
    case AlmostGone => "Almost Gone!"
    case LastPieces => "Last Pieces!"
    case SoldOut => "Sold Out!"
  }

  function ParseStatusLabel(r: string): Option<Status> {
    if r == "Fresh & Ready!" then Some(FreshAndReady)
    else if r == "Opening Soon!" then Some(OpeningSoon)
    else if r == "Fresh & Plenty!" then Some(FreshAndPlenty)
    else if r == "Getting Low" then Some(GettingLow)
    else if r == "Almost Gone!" then Some(AlmostGone)
    else if r == "Last Pieces!" then Some(LastPieces)
    else if r == "Sold Out!" then Some(SoldOut)
    else None
  }

  const OpensInPrefix: string := "Opens in "
  const LeftSuffix: string := "m left"
  const TomorrowText: string := "Opens tomorrow at 11:30 AM"

  /** "<h>h <m>m", the part common to both countdown messages minus the final "m". */
  function HoursMinutesText(h: nat, m: nat): string {
    Decimal(h) + "h " + Decimal(m)
  }

  /** The time message the page writes. Nothing is lost in rendering: the
      message reads back as the display it came from. */
  function Render(d: TimeDisplay): (r: string)
    ensures ParseTime(r) == Some(d)
  {
    match d
    case OpensIn(h, m) =>
      var s := OpensInPrefix + HoursMinutesText(h, m) + "m";
      assert s != TomorrowText by { assert s[6] != TomorrowText[6]; }
      assert s[..|OpensInPrefix|] == OpensInPrefix;
      assert s[|OpensInPrefix|..|s| - 1] == HoursMinutesText(h, m);
      HoursMinutesRoundTrip(h, m);
      s
    case OpensTomorrow => TomorrowText
    case Left(h, m) =>
      var s := HoursMinutesText(h, m) + LeftSuffix;
      assert IsDigit(s[0]);
      assert s != TomorrowText by { assert TomorrowText[0] == 'O'; }
      assert s[..|s| - |LeftSuffix|] == HoursMinutesText(h, m);
      assert s[|s| - |LeftSuffix|..] == LeftSuffix;
      HoursMinutesRoundTrip(h, m);
      s
  }

  /** Index of the first `c` in `s`, or |s| when there is none. */
  function FirstIndexOf(s: string, c: char): (i: nat)
    ensures i <= |s|
    ensures i < |s| ==> s[i] == c
    ensures forall j :: 0 <= j < i ==> s[j] != c
  {
    if |s| == 0 then 0
    else if s[0] == c then 0
    else 1 + FirstIndexOf(s[1..], c)
  }

  function ParseHoursMinutes(s: string): Option<(nat, nat)> {
    var i := FirstIndexOf(s, 'h');
    if i + 1 < |s| && s[i + 1] == ' ' && Canonical(s[..i]) && Canonical(s[i + 2..]) then
      Some((ParseDecimal(s[..i]), ParseDecimal(s[i + 2..])))
    else
      None
  }

  /** Inverse of `Render`: it accepts exactly the texts `Render` produces. */
  function ParseTime(s: string): Option<TimeDisplay> {
    if s == TomorrowText then Some(OpensTomorrow)
    else if |s| > |OpensInPrefix| && s[..|OpensInPrefix|] == OpensInPrefix && s[|s| - 1] == 'm' then
      match ParseHoursMinutes(s[|OpensInPrefix|..|s| - 1])
      case Some(hm) => Some(OpensIn(hm.0, hm.1))
      case None => None
    else if |s| >= |LeftSuffix| && s[|s| - |LeftSuffix|..] == LeftSuffix then
      match ParseHoursMinutes(s[..|s| - |LeftSuffix|])
      case Some(hm) => Some(Left(hm.0, hm.1))
      case None => None
    else None
  }

  lemma HoursMinutesRoundTrip(h: nat, m: nat)
    ensures ParseHoursMinutes(HoursMinutesText(h, m)) == Some((h, m))
  {
    var a, b := Decimal(h), Decimal(m);
    var s := HoursMinutesText(h, m);
    assert s[|a|] == 'h';
    assert FirstIndexOf(s, 'h') == |a|;
    assert s[..|a|] == a;
    assert s[|a| + 2..] == b;
    DecimalRoundTrip(h);
    DecimalRoundTrip(m);
  }

  /** Only canonical "<h>h <m>" text reads as hours and minutes. */
  lemma HoursMinutesOnlyCanonical(s: string, h: nat, m: nat)
    requires ParseHoursMinutes(s) == Some((h, m))
    ensures s == HoursMinutesText(h, m)
  {
    var i := FirstIndexOf(s, 'h');
    DecimalOfParse(s[..i]);
    DecimalOfParse(s[i + 2..]);
    assert s == s[..i] + "h " + s[i + 2..];
  }

  /** Whatever the parser reads as a display is that display's rendering. */
  lemma ParsedIsRendered(s: string, d: TimeDisplay)
    requires ParseTime(s) == Some(d)
    ensures s == Render(d)
  {
    match d
    case OpensTomorrow =>
    case OpensIn(h, m) => ParsedOpensInIsRendered(s, h, m);
    case Left(h, m) => ParsedLeftIsRendered(s, h, m);
  }

  lemma ParsedOpensInIsRendered(s: string, h: nat, m: nat)
    requires ParseTime(s) == Some(OpensIn(h, m))
    ensures s == OpensInPrefix + HoursMinutesText(h, m) + "m"
  {
    assert s != TomorrowText;
    var mid := s[|OpensInPrefix|..|s| - 1];
    assert ParseHoursMinutes(mid) == Some((h, m));
    HoursMinutesOnlyCanonical(mid, h, m);
    SplitAround(s, |OpensInPrefix|);
  }

  lemma ParsedLeftIsRendered(s: string, h: nat, m: nat)
    requires ParseTime(s) == Some(Left(h, m))
    ensures s == HoursMinutesText(h, m) + LeftSuffix
  {
    assert s != TomorrowText;
    var mid := s[..|s| - |LeftSuffix|];
    assert ParseHoursMinutes(mid) == Some((h, m));
    HoursMinutesOnlyCanonical(mid, h, m);
    SplitAt(s, |s| - |LeftSuffix|);
  }

  /** A sequence is its prefix up to `k` followed by the rest. */
  lemma SplitAt(s: string, k: nat)
    requires k <= |s|
    ensures s == s[..k] + s[k..]
  {
  }

  /** A sequence is its prefix up to `k`, the middle, and its last element. */
  lemma SplitAround(s: string, k: nat)
    requires k < |s|
    ensures s == s[..k] + s[k..|s| - 1] + [s[|s| - 1]]
  {
  }

  /** The parser reads a text as a display exactly when that text is the
      display's rendering: no other spelling (empty or zero-padded numbers,
      say) is accepted. */
  lemma ParseTimeExactlyRendered(s: string, d: TimeDisplay)
    ensures ParseTime(s) == Some(d) <==> s == Render(d)
  {
    if ParseTime(s) == Some(d) {
      ParsedIsRendered(s, d);
    }
  }

  /** Two time messages are equal exactly when the displays are equal. */
  lemma RenderInjective(d1: TimeDisplay, d2: TimeDisplay)
    ensures Render(d1) == Render(d2) <==> d1 == d2
  {
  }

  lemma RenderScenarios()
    ensures Render(OpensIn(1, 30)) == "Opens in 1h 30m"
    ensures Render(OpensIn(11, 30)) == "Opens in 11h 30m"
    ensures Render(Left(10, 30)) == "10h 30m left"
  {
    RenderOpensInOneThirty();
    RenderOpensInElevenThirty();
    RenderLeftTenThirty();
  }

  /** The opens-in message is the prefix, the hours-and-minutes text and "m". */
  lemma RenderOpensInShape(h: nat, m: nat)
    ensures Render(OpensIn(h, m)) == OpensInPrefix + HoursMinutesText(h, m) + "m"
  {
  }

  /** The time-left message is the hours-and-minutes text and the suffix. */
  lemma RenderLeftShape(h: nat, m: nat)
    ensures Render(Left(h, m)) == HoursMinutesText(h, m) + LeftSuffix
  {
  }

  lemma RenderOpensInOneThirty()
    ensures Render(OpensIn(1, 30)) == "Opens in 1h 30m"
  {
    assert Decimal(30) == "30";
    assert HoursMinutesText(1, 30) == "1h 30";
    RenderOpensInShape(1, 30);
  }

  lemma RenderOpensInElevenThirty()
    ensures Render(OpensIn(11, 30)) == "Opens in 11h 30m"
  {
    assert Decimal(11) == "11";
    assert Decimal(30) == "30";
    assert HoursMinutesText(11, 30) == "11h 30";
    RenderOpensInShape(11, 30);
  }

  lemma RenderLeftTenThirty()
    ensures Render(Left(10, 30)) == "10h 30m left"
  {
    assert Decimal(10) == "10";
    assert Decimal(30) == "30";
    assert HoursMinutesText(10, 30) == "10h 30";
    RenderLeftShape(10, 30);
  }
}
