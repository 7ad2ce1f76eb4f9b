/** `parse_yen`: reads an amount written with the Japanese unit words "man"
    (ten thousand), "sen" (thousand) and "hyaku" (hundred), such as
    `32man9sen3hyaku23`, as a number. */
module YenParser {
  import opened Results
  import opened Text
  import opened Decimal

  /** A unit word and what one of it is worth. */
  datatype Unit = Unit(marker: string, multiplier: nat)

  const Man := Unit("man", 10000)
  const Sen := Unit("sen", 1000)
  const Hyaku := Unit("hyaku", 100)

  /** One stage: when the marker occurs, the text before its first
      occurrence (spaces removed) is an integer count of the unit, and the
      parse goes on with the text between its first and second occurrence.
      Yields the stage's contribution and the text left. */
  function TakeUnit(u: Unit, s: string): Result<(int, string), ParseError>
    requires |u.marker| > 0
  {
    if !Contains(s, u.marker) then Ok((0, s))
    else
      var pieces := Split(s, u.marker);
      SplitCount(s, u.marker);
      match ParseInt(RemoveSpaces(pieces[0]))
      case Err(e) => Err(e)
      case Ok(n) => Ok((n * u.multiplier, pieces[1]))
  }

  /** A stage leaves text that no longer holds its marker: shorter text when
      the marker was there, the same text (and nothing added) when it was not. */
  lemma TakeUnitProgress(u: Unit, s: string)
    requires |u.marker| > 0
    ensures !Contains(s, u.marker) ==> TakeUnit(u, s) == Ok((0, s))
    ensures TakeUnit(u, s).Ok? ==> !Contains(TakeUnit(u, s).value.1, u.marker) && |TakeUnit(u, s).value.1| <= |s|
    ensures TakeUnit(u, s).Ok? && Contains(s, u.marker) ==> |TakeUnit(u, s).value.1| < |s|
  {
    if Contains(s, u.marker) {
      SplitPiecesFree(s, u.marker);
    }
  }

  /** The text left after the last marker: spaces removed, ',' read as the
      decimal point, the empty text counting as zero. */
  function Remainder(rest: string): Result<real, ParseError> {
    var t := ReplaceChar(RemoveSpaces(rest), ',', '.');
    if t == [] then Ok(0.0) else ParseDecimal(t)
  }

  /** The value `parse_yen` computes for `s`, or the conversion error it
      raises: the man, sen and hyaku stages in that order, each on the text
      the previous one left, then the remainder. */
  function Parse(s: string): Result<real, ParseError> {
    match TakeUnit(Man, s)
    case Err(e) => Err(e)
    case Ok((man, s1)) => AfterMan(man, s1)
  }

  /** The rest of the parse once the "man" stage has added `total` and left `s1`. */
  function AfterMan(total: int, s1: string): Result<real, ParseError> {
    match TakeUnit(Sen, s1)
    case Err(e) => Err(e)
    case Ok((sen, s2)) => AfterSen(total + sen, s2)
  }

  /** The rest of the parse once the "sen" stage has brought the total to `total` and left `s2`. */
  function AfterSen(total: int, s2: string): Result<real, ParseError> {
    match TakeUnit(Hyaku, s2)
    case Err(e) => Err(e)
    case Ok((hyaku, s3)) => AddRemainder(total + hyaku, s3)
  }

  /** The last step: the remainder `s3` added to the total of the three stages. */
  function AddRemainder(total: int, s3: string): Result<real, ParseError> {
    AddTo(total, Remainder(s3))
  }

  /** The total plus the remainder's value, or the remainder's conversion error. */
  function AddTo(total: int, x: Result<real, ParseError>): Result<real, ParseError> {
    match x
    case Err(e) => Err(e)
    case Ok(v) => Ok(total as real + v)
  }

  /** One marker stage of `parse_yen`, as each of the three is written:
      split at the marker, convert the first piece with spaces removed, and
      keep the second piece. */
  method TakeStage(s: string, u: Unit) returns (r: Result<(int, string), ParseError>)
    requires |u.marker| > 0
    ensures r == TakeUnit(u, s)
  {
    if Contains(s, u.marker) {
      var pieces := Split(s, u.marker);
      SplitCount(s, u.marker);
      var count := ParseInt(RemoveSpaces(pieces[0]));
      if count.Err? { return Err(count.error); }
      r := Ok((count.value * u.multiplier, pieces[1]));
    } else {
      r := Ok((0, s));
    }
  }

  /** `parse_yen` as written: the man, sen and hyaku stages update the
      running total and the text left, then the remainder is added. */
  method ParseYen(amountString: string) returns (r: Result<real, ParseError>)
    ensures r == Parse(amountString)
  {
    var total: int := 0;
    var s := amountString;

    var man := TakeStage(s, Man);
    if man.Err? {
      ParseFailsAtMan(amountString);
      return Err(man.error);
    }
    total, s := total + man.value.0, man.value.1;

    var sen := TakeStage(s, Sen);
    if sen.Err? {
      ParseFailsAtSen(amountString, man.value.0, man.value.1);
      return Err(sen.error);
    }
    total, s := total + sen.value.0, sen.value.1;

    var hyaku := TakeStage(s, Hyaku);
    if hyaku.Err? {
      ParseFailsAtHyaku(amountString, man.value.0, man.value.1, sen.value.0, sen.value.1);
      return Err(hyaku.error);
    }
    total, s := total + hyaku.value.0, hyaku.value.1;
    ParseOfStages(amountString, man.value.0, man.value.1, sen.value.0, sen.value.1, hyaku.value.0, s, total);

    var x := Remainder(s);
    AddRemainderCases(total, s);
    if x.Err? { return Err(x.error); }
    r := Ok(total as real + x.value);
  }

  // ---------------------------------------------------------------------
  // Properties of Parse

  /** The characters that may appear around a marker in a well-written amount. */
  predicate CountText(x: string) {
    (forall k :: 0 <= k < |x| ==> IsDigit(x[k]) || x[k] == ' ') && RemoveSpaces(x) != []
  }

  predicate TailText(x: string) {
    forall k :: 0 <= k < |x| ==> IsDigit(x[k]) || x[k] == ' ' || x[k] == ',' || x[k] == '.'
  }

  /** An amount written as optional counts of man, sen and hyaku, in that
      order, and a tail. */
  datatype Written = Written(man: Option<string>, sen: Option<string>, hyaku: Option<string>, tail: string)

  function Counted(count: Option<string>, marker: string): string {
    match count
    case None => ""
    case Some(x) => x + marker
  }

  function Compose(w: Written): string {
    Counted(w.man, "man") + Counted(w.sen, "sen") + Counted(w.hyaku, "hyaku") + w.tail
  }

  predicate WellWritten(w: Written) {
    (w.man.Some? ==> CountText(w.man.value))
    && (w.sen.Some? ==> CountText(w.sen.value))
    && (w.hyaku.Some? ==> CountText(w.hyaku.value))
    && TailText(w.tail)
  }

  /** A count with its spaces removed is a digit string. */
  lemma CountDigits(x: string)
    requires forall k :: 0 <= k < |x| ==> IsDigit(x[k]) || x[k] == ' '
    ensures AllDigits(RemoveSpaces(x))
  {
    var d := RemoveSpaces(x);
    RemoveSpacesMembers(x);
    forall k | 0 <= k < |d| ensures IsDigit(d[k]) {
      assert d[k] in x;
    }
  }

  /** The count written before a marker, spaces removed; 0 when the marker is absent. */
  function CountValue(count: Option<string>): nat
    requires count.Some? ==> CountText(count.value)
  {
    match count
    case None => 0
    case Some(x) =>
      CountDigits(x);
      DecimalValue(RemoveSpaces(x))
  }

  lemma AvoidsConcat(a: string, b: string, c: char)
    requires Avoids(a, c) && Avoids(b, c)
    ensures Avoids(a + b, c)
  {
  }

  /** One stage on a well-written count followed by text that does not
      contain the marker. */
  lemma TakeCounted(u: Unit, count: Option<string>, rest: string)
    requires |u.marker| > 0
    requires count.Some? ==> CountText(count.value) && Avoids(count.value, u.marker[0])
    requires !Contains(rest, u.marker)
    ensures TakeUnit(u, Counted(count, u.marker) + rest) == Ok((CountValue(count) * u.multiplier, rest))
  {
    match count
    case None =>
      assert Counted(count, u.marker) + rest == rest;
    case Some(x) =>
      SplitAfter(x, u.marker, rest);
      SplitWhole(rest, u.marker);
      var t := x + u.marker + rest;
      assert Counted(count, u.marker) + rest == t;
      assert OccursAt(t, u.marker, |x|) by {
        assert t[|x|..|x| + |u.marker|] == u.marker;
      }
      CountDigits(x);
  }

  lemma DigitsAvoidLetters(x: string, c: char)
    requires forall k :: 0 <= k < |x| ==> IsDigit(x[k]) || x[k] == ' ' || x[k] == ',' || x[k] == '.'
    requires c == 'm' || c == 's' || c == 'h'
    ensures Avoids(x, c)
  {
  }

  lemma CountedAvoids(count: Option<string>, marker: string, c: char)
    requires count.Some? ==> CountText(count.value)
    requires c == 'm' || c == 's' || c == 'h'
    requires Avoids(marker, c)
    ensures Avoids(Counted(count, marker), c)
  {
    if count.Some? {
      DigitsAvoidLetters(count.value, c);
      AvoidsConcat(count.value, marker, c);
    }
  }

  lemma ParseFailsAtSen(s: string, man: int, s1: string)
    requires TakeUnit(Man, s) == Ok((man, s1))
    requires TakeUnit(Sen, s1).Err?
    ensures Parse(s) == Err(TakeUnit(Sen, s1).error)
  {
  }

  lemma ParseFailsAtHyaku(s: string, man: int, s1: string, sen: int, s2: string)
    requires TakeUnit(Man, s) == Ok((man, s1))
    requires TakeUnit(Sen, s1) == Ok((sen, s2))
    requires TakeUnit(Hyaku, s2).Err?
    ensures Parse(s) == Err(TakeUnit(Hyaku, s2).error)
  {
  }

  lemma AddRemainderCases(total: int, s3: string)
    ensures Remainder(s3).Err? ==> AddRemainder(total, s3) == Err(Remainder(s3).error)
    ensures Remainder(s3).Ok? ==> AddRemainder(total, s3) == Ok(total as real + Remainder(s3).value)
  {
  }

  /** Parse, once the outcome of each stage is known. */
  lemma ParseOfStages(s: string, man: int, s1: string, sen: int, s2: string, hyaku: int, s3: string, total: int)
    requires TakeUnit(Man, s) == Ok((man, s1))
    requires TakeUnit(Sen, s1) == Ok((sen, s2))
    requires TakeUnit(Hyaku, s2) == Ok((hyaku, s3))
    requires total == man + sen + hyaku
    ensures Parse(s) == AddRemainder(total, s3)
  {
  }

  /** The text after each marker of a well-written amount holds no further
      occurrence of that marker, and no count holds the marker's first letter. */
  lemma WrittenMarkersOnce(w: Written)
    requires WellWritten(w)
    ensures !Contains(w.tail, "hyaku")
    ensures !Contains(Counted(w.hyaku, "hyaku") + w.tail, "sen")
    ensures !Contains(Counted(w.sen, "sen") + (Counted(w.hyaku, "hyaku") + w.tail), "man")
    ensures w.hyaku.Some? ==> Avoids(w.hyaku.value, 'h')
    ensures w.sen.Some? ==> Avoids(w.sen.value, 's')
    ensures w.man.Some? ==> Avoids(w.man.value, 'm')
  {
    var afterSen := Counted(w.hyaku, "hyaku") + w.tail;
    var afterMan := Counted(w.sen, "sen") + afterSen;

    DigitsAvoidLetters(w.tail, 'h');
    NoOccurrence(w.tail, "hyaku");

    DigitsAvoidLetters(w.tail, 's');
    CountedAvoids(w.hyaku, "hyaku", 's');
    AvoidsConcat(Counted(w.hyaku, "hyaku"), w.tail, 's');
    NoOccurrence(afterSen, "sen");

    DigitsAvoidLetters(w.tail, 'm');
    CountedAvoids(w.hyaku, "hyaku", 'm');
    AvoidsConcat(Counted(w.hyaku, "hyaku"), w.tail, 'm');
    CountedAvoids(w.sen, "sen", 'm');
    AvoidsConcat(Counted(w.sen, "sen"), afterSen, 'm');
    NoOccurrence(afterMan, "man");

    if w.hyaku.Some? { DigitsAvoidLetters(w.hyaku.value, 'h'); }
    if w.sen.Some? { DigitsAvoidLetters(w.sen.value, 's'); }
    if w.man.Some? { DigitsAvoidLetters(w.man.value, 'm'); }
  }

  /** The three stages on a well-written amount: each consumes its count and marker. */
  lemma WrittenStages(w: Written)
    requires WellWritten(w)
    ensures TakeUnit(Man, Compose(w))
         == Ok((CountValue(w.man) * 10000, Counted(w.sen, "sen") + (Counted(w.hyaku, "hyaku") + w.tail)))
    ensures TakeUnit(Sen, Counted(w.sen, "sen") + (Counted(w.hyaku, "hyaku") + w.tail))
         == Ok((CountValue(w.sen) * 1000, Counted(w.hyaku, "hyaku") + w.tail))
    ensures TakeUnit(Hyaku, Counted(w.hyaku, "hyaku") + w.tail) == Ok((CountValue(w.hyaku) * 100, w.tail))
  {
    var afterSen := Counted(w.hyaku, "hyaku") + w.tail;
    var afterMan := Counted(w.sen, "sen") + afterSen;
    assert Compose(w) == Counted(w.man, "man") + afterMan;
    WrittenMarkersOnce(w);
    TakeCounted(Man, w.man, afterMan);
    TakeCounted(Sen, w.sen, afterSen);
    TakeCounted(Hyaku, w.hyaku, w.tail);
  }

  /** What the counts of a well-written amount are worth. */
  function CountsWorth(w: Written): int
    requires WellWritten(w)
  {
    CountValue(w.man) * 10000 + CountValue(w.sen) * 1000 + CountValue(w.hyaku) * 100
  }

  /** A well-written amount is worth its counts times 10000, 1000 and 100,
      plus the value of its tail, or fails with the tail's error: the
      markers are consumed in order, each count read with its spaces removed. */
  lemma ParseWritten(w: Written)
    requires WellWritten(w)
    ensures Parse(Compose(w)) == AddRemainder(CountsWorth(w), w.tail)
  {
    WrittenStages(w);
    ParseOfStages(Compose(w), CountValue(w.man) * 10000, Counted(w.sen, "sen") + (Counted(w.hyaku, "hyaku") + w.tail),
                  CountValue(w.sen) * 1000, Counted(w.hyaku, "hyaku") + w.tail,
                  CountValue(w.hyaku) * 100, w.tail, CountsWorth(w));
  }

  /** Stage on text whose first marker follows `a`: the count is read from
      `a`, and only the piece of the rest up to the next marker is kept. */
  lemma TakeUnitFirstPiece(u: Unit, a: string, rest: string)
    requires |u.marker| > 0 && Avoids(a, u.marker[0])
    ensures TakeUnit(u, a + u.marker + rest) == match ParseInt(RemoveSpaces(a))
      case Err(e) => Err(e)
      case Ok(n) => Ok((n * u.multiplier, Split(rest, u.marker)[0]))
  {
    var s := a + u.marker + rest;
    SplitAfter(a, u.marker, rest);
    assert OccursAt(s, u.marker, |a|) by {
      assert s[|a|..|a| + |u.marker|] == u.marker;
    }
  }

  /** Parse sees its input only through the "man" stage. */
  lemma ParseThroughMan(s: string, t: string)
    requires TakeUnit(Man, s) == TakeUnit(Man, t)
    ensures Parse(s) == Parse(t)
  {
  }

  lemma ParseFailsAtMan(s: string)
    requires TakeUnit(Man, s).Err?
    ensures Parse(s) == Err(TakeUnit(Man, s).error)
  {
  }

  /** The first piece of `b + sep + c`, and of `b` alone, is `b` when
      `sep` cannot start inside `b`. */
  lemma FirstPieceBefore(b: string, sep: string, c: string)
    requires |sep| > 0 && Avoids(b, sep[0])
    ensures Split(b + sep + c, sep)[0] == b && Split(b, sep)[0] == b
  {
    SplitAfter(b, sep, c);
    NoOccurrence(b, sep);
    SplitWhole(b, sep);
  }

  /** A stage keeps the text between the first and the second marker. */
  lemma TakeUnitRepeated(u: Unit, a: string, b: string, c: string)
    requires |u.marker| > 0 && Avoids(a, u.marker[0]) && Avoids(b, u.marker[0])
    ensures TakeUnit(u, a + u.marker + b + u.marker + c) == TakeUnit(u, a + u.marker + b)
  {
    var rest := b + u.marker + c;
    assert a + u.marker + b + u.marker + c == a + u.marker + rest;
    TakeUnitFirstPiece(u, a, rest);
    TakeUnitFirstPiece(u, a, b);
    FirstPieceBefore(b, u.marker, c);
  }

  /** Text after a repeated marker is discarded: a second "man" and all
      that follows it do not change the result. */
  lemma RepeatedManDiscarded(a: string, b: string, c: string)
    requires Avoids(a, 'm') && Avoids(b, 'm')
    ensures Parse(a + "man" + b + "man" + c) == Parse(a + "man" + b)
  {
    TakeUnitRepeated(Man, a, b, c);
    ParseThroughMan(a + "man" + b + "man" + c, a + "man" + b);
  }

  lemma {:induction false} SpaceFree(s: string)
    requires ' ' !in s
    ensures RemoveSpaces(s) == s
  {
    if s != [] {
      assert s == [s[0]] + s[1..];
      SpaceFree(s[1..]);
    }
  }

  /** The text before "man" is not an integer when it holds a unit word. */
  lemma WordIsNotAnInteger(a: string, word: string, b: string)
    requires word == "sen" || word == "hyaku"
    ensures ParseInt(RemoveSpaces(a + word + b)).Err?
  {
    var t := RemoveSpaces(a + word + b);
    RemoveSpacesConcat(a + word, b);
    RemoveSpacesConcat(a, word);
    SpaceFree(word);
    var k := |RemoveSpaces(a)| + 1;
    assert t[k] == word[1] && !IsDigit(t[k]);
    assert t[1..][k - 1] == t[k];
  }

  /** A thousand or hundred count written before the "man" count is an
      error. */
  lemma MarkerBeforeManFails(a: string, word: string, b: string, c: string)
    requires word == "sen" || word == "hyaku"
    requires Avoids(a, 'm') && Avoids(b, 'm')
    ensures Parse(a + word + b + "man" + c).Err?
  {
    var x := a + word + b;
    assert Avoids(word, 'm');
    AvoidsConcat(a, word, 'm');
    AvoidsConcat(a + word, b, 'm');
    TakeUnitFirstPiece(Man, x, c);
    WordIsNotAnInteger(a, word, b);
    assert a + word + b + "man" + c == x + "man" + c;
    ParseFailsAtMan(x + "man" + c);
  }

  /** Spaces inside the counts and the tail of a well-written amount do not
      change the result. */
  predicate SameUpToSpaces(c1: Option<string>, c2: Option<string>) {
    (c1.None? && c2.None?) || (c1.Some? && c2.Some? && RemoveSpaces(c1.value) == RemoveSpaces(c2.value))
  }

  lemma SameWorth(w1: Written, w2: Written)
    requires WellWritten(w1) && WellWritten(w2)
    requires SameUpToSpaces(w1.man, w2.man) && SameUpToSpaces(w1.sen, w2.sen) && SameUpToSpaces(w1.hyaku, w2.hyaku)
    ensures CountsWorth(w1) == CountsWorth(w2)
  {
  }

  lemma SameRemainder(total: int, t1: string, t2: string)
    requires RemoveSpaces(t1) == RemoveSpaces(t2)
    ensures AddRemainder(total, t1) == AddRemainder(total, t2)
  {
  }

  lemma SpacesIgnored(w1: Written, w2: Written)
    requires WellWritten(w1) && WellWritten(w2)
    requires SameUpToSpaces(w1.man, w2.man) && SameUpToSpaces(w1.sen, w2.sen) && SameUpToSpaces(w1.hyaku, w2.hyaku)
    requires RemoveSpaces(w1.tail) == RemoveSpaces(w2.tail)
    ensures Parse(Compose(w1)) == Parse(Compose(w2))
  {
    ParseWritten(w1);
    ParseWritten(w2);
    SameWorth(w1, w2);
    SameRemainder(CountsWorth(w1), w1.tail, w2.tail);
  }

  // ---------------------------------------------------------------------
  // The amounts the converter documents

  /** A count or tail of digits only, read as a number. */
  lemma DigitCount(x: string)
    requires |x| >= 1 && AllDigits(x)
    ensures CountText(x) && RemoveSpaces(x) == x
    ensures Remainder(x) == Ok(DecimalValue(x) as real)
  {
    assert ' ' !in x by {
      forall k | 0 <= k < |x| ensures x[k] != ' ' { assert IsDigit(x[k]); }
    }
    SpaceFree(x);
    ParseDecimalDigits(x);
    assert ReplaceChar(x, ',', '.') == x by {
      forall k | 0 <= k < |x| ensures x[k] != ',' { assert IsDigit(x[k]); }
    }
  }

  const Docstring := Written(Some("32"), Some("9"), Some("3"), "23")

  lemma DocstringText()
    ensures Compose(Docstring) == "32man9sen3hyaku23"
  {
  }

  lemma DocstringWorth()
    ensures WellWritten(Docstring) && CountsWorth(Docstring) == 329300
  {
    DigitCount("32");
    DigitCount("9");
    DigitCount("3");
    DigitCount("23");
    assert DecimalValue("32") == 32 && DecimalValue("9") == 9 && DecimalValue("3") == 3;
  }

  lemma DocstringTail()
    ensures AddRemainder(329300, "23") == Ok(329323.0)
  {
    DigitCount("23");
    assert DecimalValue("23") == 23;
  }

  /** The first example of the `parse_yen` docstring. */
  lemma ManSenHyakuExample()
    ensures Parse("32man9sen3hyaku23") == Ok(329323.0)
  {
    DocstringText();
    DocstringWorth();
    DocstringTail();
    ParseWritten(Docstring);
  }

  /** The digits of a rendered number read back as that number. */
  lemma RenderedValue(n: nat, x: string)
    requires NatToDecimal(n) == x
    ensures |x| >= 1 && AllDigits(x) && DecimalValue(x) == n
  {
    DecimalRoundTrip(n);
  }

  const ManOnly := Written(Some("32"), None, None, "9323")

  lemma ManOnlyText()
    ensures Compose(ManOnly) == "32man9323"
  {
  }

  lemma ManOnlyWorth()
    ensures WellWritten(ManOnly) && CountsWorth(ManOnly) == 320000
  {
    RenderedValue(32, "32");
    DigitCount("32");
  }

  lemma ManOnlyTail()
    ensures AddRemainder(320000, "9323") == Ok(329323.0)
  {
    RenderedValue(9323, "9323");
    DigitCount("9323");
  }

  /** The second example of the `parse_yen` docstring: "man" alone. */
  lemma ManOnlyExample()
    ensures Parse("32man9323") == Ok(329323.0)
  {
    ManOnlyText();
    ManOnlyWorth();
    ManOnlyTail();
    ParseWritten(ManOnly);
  }

  lemma EndsInMarker()
    ensures Parse("5man") == Ok(50000.0)
  {
    var w := Written(Some("5"), None, None, "");
    DigitCount("5");
    assert Compose(w) == "5man";
    assert CountsWorth(w) == 50000;
    ParseWritten(w);
  }

  lemma EmptyAmount()
    ensures Parse("") == Ok(0.0)
  {
    var e := Written(None, None, None, "");
    assert Compose(e) == "";
    ParseWritten(e);
  }

  /** An amount ending in a marker, and the empty amount: the empty
      remainder counts as zero. */
  lemma EmptyRemainderExamples()
    ensures Parse("5man") == Ok(50000.0)
    ensures Parse("") == Ok(0.0)
  {
    EndsInMarker();
    EmptyAmount();
  }

  /** A ',' anywhere in the text after the last marker reads as '.': the
      remainder, and so the amount, is the same once the commas are points. */
  lemma CommaIsPoint(total: int, t: string)
    ensures Remainder(t) == Remainder(ReplaceChar(t, ',', '.'))
    ensures AddRemainder(total, t) == AddRemainder(total, ReplaceChar(t, ',', '.'))
  {
    CommaNormalised(t);
  }

  /** The text `float()` is given is the same whether the commas of the
      remainder were points to begin with or not. */
  lemma CommaNormalised(t: string)
    ensures ReplaceChar(RemoveSpaces(ReplaceChar(t, ',', '.')), ',', '.') == ReplaceChar(RemoveSpaces(t), ',', '.')
  {
    ReplaceCharRemoveSpaces(t, ',', '.');
    ReplaceCharTwice(RemoveSpaces(t), ',', '.');
  }

  /** A remainder holding a character that is not a digit, a space, ',', '.'
      or a sign is refused by the plain-decimal `float()` modelled here. */
  lemma RemainderFails(rest: string, k: int)
    requires 0 <= k < |rest| && !IsDigit(rest[k]) && rest[k] !in " ,.+-"
    ensures Remainder(rest).Err?
  {
    var s := RemoveSpaces(rest);
    RemoveSpacesMembers(rest);
    assert rest[k] in s;
    var j :| 0 <= j < |s| && s[j] == rest[k];
    var t := ReplaceChar(s, ',', '.');
    assert t[j] == rest[k];
    ParseDecimalFails(t, j);
  }

  /** A tail with two decimal separators is not a number: `5man1,2.3` is
      refused, since the comma also reads as a point. */
  lemma TwoPointsExample()
    ensures Parse("5man1,2.3").Err?
  {
    var w := Written(Some("5"), None, None, "1,2.3");
    DigitCount("5");
    assert Compose(w) == "5man1,2.3";
    ParseWritten(w);
    TwoPointsRemainder();
  }

  lemma TwoPointsRemainder()
    ensures Remainder("1,2.3").Err?
  {
    TwoPointsText();
    TwoPointsDecimal();
  }

  lemma TwoPointsText()
    ensures ReplaceChar(RemoveSpaces("1,2.3"), ',', '.') == "1.2.3"
  {
    SpaceFree("1,2.3");
  }

  lemma TwoPointsDecimal()
    ensures ParseDecimal("1.2.3").Err?
  {
    assert "1.2.3" == "1" + "." + "2" + "." + "3";
    ParseDecimalTwoPoints("1", "2", "3");
  }

  lemma FractionExample()
    ensures Fraction("56") == 0.56
  {
    assert "56"[1..] == "6" && "6"[1..] == "";
    assert Fraction("6") == 0.6;
  }

  lemma DecimalExample()
    ensures ParseDecimal("1234.56") == Ok(1234.56)
  {
    RenderedValue(1234, "1234");
    ParseDecimalFraction("1234", "56");
    assert "1234" + "." + "56" == "1234.56";
    FractionExample();
  }

  lemma CommaText()
    ensures ReplaceChar(RemoveSpaces("1234,56"), ',', '.') == "1234.56"
  {
    SpaceFree("1234,56");
  }

  lemma PointText()
    ensures ReplaceChar(RemoveSpaces("1234.56"), ',', '.') == "1234.56"
  {
    SpaceFree("1234.56");
  }

  /** The remainder takes ',' as the decimal point, like '.'. */
  lemma DecimalCommaExample()
    ensures Remainder("1234,56") == Ok(1234.56)
    ensures Remainder("1234.56") == Ok(1234.56)
  {
    CommaText();
    PointText();
    DecimalExample();
  }

  const CommaAmount := Written(None, None, None, "1234,56")

  lemma CommaAmountParts()
    ensures Compose(CommaAmount) == "1234,56"
    ensures WellWritten(CommaAmount) && CountsWorth(CommaAmount) == 0
  {
  }

  lemma CommaAmountTail()
    ensures AddRemainder(0, "1234,56") == Ok(1234.56)
  {
    DecimalCommaExample();
  }

  lemma DecimalCommaParse()
    ensures Parse("1234,56") == Ok(1234.56)
  {
    CommaAmountParts();
    CommaAmountTail();
    ParseWritten(CommaAmount);
  }
}
