/** `num_to_yen`: writes an amount of yen with the ten-thousands counted in
    万 ("man"), e.g. 329323 becomes "32万9323円" (or "32万円" without the
    remainder). */
module YenFormat {
  import opened Results
  import opened Text
  import opened Decimal

  /** The 万 part: present exactly when there is at least one ten-thousand,
      and then digits that read back as the count of ten-thousands, then 万. */
  function ManPart(num: int): (r: string)
    ensures '万' in r <==> num >= 10000
    ensures num >= 10000 ==>
              |r| >= 2 && r[|r| - 1] == '万' && AllDigits(r[..|r| - 1]) && DecimalValue(r[..|r| - 1]) == num / 10000
    ensures num < 10000 ==> r == ""
  {
    var man := num / 10000;
    if man > 0 then
      var digits := NatToDecimal(man);
      DecimalRoundTrip(man);
      assert (digits + "万")[..|digits|] == digits;
      digits + "万"
    else ""
  }

  /** Python's `num // 10000` and `num % 10000` are floor division and a
      non-negative remainder for a positive divisor, which is what Dafny's
      `/` and `%` compute on `int`. */
  function NumToYen(num: int, remainder: bool): string {
    var rem := num % 10000;
    var remString := if remainder then NatToDecimal(rem) else "";
    ManPart(num) + remString + "円"
  }

  /** The text always ends in 円, holds 万 exactly when the amount reaches
      ten thousand, and ends in a digit before 円 exactly when the remainder
      is asked for. */
  lemma NumToYenShape(num: int, remainder: bool)
    ensures var r := NumToYen(num, remainder);
      |r| >= 1 && r[|r| - 1] == '円'
      && ('万' in r <==> num >= 10000)
      && (remainder <==> |r| >= 2 && IsDigit(r[|r| - 2]))
  {
    var rem := num % 10000;
    var remString := if remainder then NatToDecimal(rem) else "";
    var r := NumToYen(num, remainder);
    assert r == ManPart(num) + remString + "円";
    assert '万' !in remString;
    assert num >= 10000 ==> r[|ManPart(num)| - 1] == '万';
    assert !remainder && num >= 10000 ==> r[|r| - 2] == '万';
  }

  /** Reads a digit string, the empty string counting as 0. */
  function DigitsOrZero(s: string): Option<nat> {
    if AllDigits(s) then Some(DecimalValue(s)) else None
  }

  /** Reads back a string of the form `[<digits>万][<digits>]円`. */
  function ReadManYen(s: string): Option<int> {
    if |s| == 0 || s[|s| - 1] != '円' then None
    else ReadManPieces(Split(s[..|s| - 1], "万"))
  }

  /** The pieces around 万: the remainder alone, or the ten-thousands and the remainder. */
  function ReadManPieces(pieces: seq<string>): Option<int> {
    if |pieces| == 1 then DigitsOrZero(pieces[0])
    else if |pieces| == 2 && |pieces[0]| >= 1 && AllDigits(pieces[0]) && AllDigits(pieces[1]) then
      Some(DecimalValue(pieces[0]) * 10000 + DecimalValue(pieces[1]))
    else None
  }

  lemma DigitsHaveNoMan(s: string)
    requires AllDigits(s)
    ensures forall k :: 0 <= k < |s| ==> s[k] != "万"[0]
    ensures !Contains(s, "万")
  {
    NoOccurrence(s, "万");
  }

  lemma ReadWithoutMan(t: string)
    requires AllDigits(t)
    ensures ReadManYen(t + "円") == Some(DecimalValue(t))
  {
    var s := t + "円";
    assert s[..|s| - 1] == t;
    DigitsHaveNoMan(t);
    SplitWhole(t, "万");
  }

  lemma SplitAroundMan(m: string, t: string)
    requires AllDigits(m) && AllDigits(t)
    ensures Split(m + "万" + t, "万") == [m, t]
  {
    DigitsHaveNoMan(m);
    DigitsHaveNoMan(t);
    SplitAfter(m, "万", t);
    SplitWhole(t, "万");
  }

  lemma ManPiecesValue(m: string, t: string)
    requires AllDigits(m) && |m| >= 1 && AllDigits(t)
    ensures ReadManPieces([m, t]) == Some(DecimalValue(m) * 10000 + DecimalValue(t))
  {
    var pieces := [m, t];
    assert |pieces| == 2 && pieces[0] == m && pieces[1] == t;
  }

  lemma ReadWithMan(m: string, t: string)
    requires AllDigits(m) && |m| >= 1 && AllDigits(t)
    ensures ReadManYen(m + "万" + t + "円") == ReadManPieces([m, t])
  {
    var s := m + "万" + t + "円";
    assert s[..|s| - 1] == m + "万" + t;
    SplitAroundMan(m, t);
  }

  lemma ReadRenderedMan(man: nat, t: string)
    requires AllDigits(t)
    ensures ReadManYen(NatToDecimal(man) + "万" + t + "円") == Some(man * 10000 + DecimalValue(t))
  {
    ReadWithMan(NatToDecimal(man), t);
    ManPiecesValue(NatToDecimal(man), t);
    DecimalRoundTrip(man);
  }

  lemma ReadsBackManAndRemainder(num: int)
    requires num >= 10000
    ensures ReadManYen(NumToYen(num, true)) == Some(num / 10000 * 10000 + num % 10000)
  {
    var man, rem := num / 10000, num % 10000;
    assert NumToYen(num, true) == NatToDecimal(man) + "万" + NatToDecimal(rem) + "円";
    DecimalRoundTrip(rem);
    ReadRenderedMan(man, NatToDecimal(rem));
  }

  lemma ReadsBackManOnly(num: int)
    requires num >= 10000
    ensures ReadManYen(NumToYen(num, false)) == Some(num / 10000 * 10000)
  {
    var man := num / 10000;
    assert NumToYen(num, false) == NatToDecimal(man) + "万" + "" + "円";
    ReadRenderedMan(man, "");
  }

  lemma ReadsBackBelowTenThousand(num: int, remainder: bool)
    requires num < 10000
    ensures ReadManYen(NumToYen(num, remainder)) == Some(if remainder then num % 10000 else 0)
  {
    var remString := if remainder then NatToDecimal(num % 10000) else "";
    assert DecimalValue(remString) == if remainder then num % 10000 else 0 by {
      DecimalRoundTrip(num % 10000);
    }
    assert NumToYen(num, remainder) == remString + "円";
    ReadWithoutMan(remString);
  }

  /** What `num_to_yen` writes reads back as the amount it stands for: the
      whole ten-thousands when positive, plus the remainder when it is shown. */
  lemma NumToYenReadsBack(num: int, remainder: bool)
    ensures ReadManYen(NumToYen(num, remainder))
         == Some((if num >= 10000 then num / 10000 * 10000 else 0) + (if remainder then num % 10000 else 0))
  {
    if num >= 10000 && remainder {
      ReadsBackManAndRemainder(num);
    } else if num >= 10000 {
      ReadsBackManOnly(num);
    } else {
      ReadsBackBelowTenThousand(num, remainder);
    }
  }

  /** For a non-negative amount shown with its remainder, the string stands
      for exactly that amount. */
  lemma NumToYenExact(num: nat)
    ensures ReadManYen(NumToYen(num, true)) == Some(num)
  {
    NumToYenReadsBack(num, true);
    if num >= 10000 {
      assert num / 10000 * 10000 + num % 10000 == num;
    } else {
      assert num % 10000 == num;
    }
  }
}
