/** The ISO 8601 duration subset of `aap/service_followups.py` (compare Appendix A of RFC 3339):
    the regular expression as a grammar, and the parser it amounts to. */
module Durations {
  import opened Values
  import opened Digits

  predicate IsDigit(c: char) {
    '0' <= c <= '9'
  }

  ghost predicate AllDigits(s: string) {
    forall i :: 0 <= i < |s| ==> IsDigit(s[i])
  }

  ghost predicate IsNumber(s: string) {
    s != "" && AllDigits(s)
  }

  // ---- the grammar: optional numbers, each followed by its designator, in a fixed order ----

  const DATE := "YMWD"
  const TIME := "HMS"

  /** Seven optional components; the time part is there, possibly empty, exactly when a 'T' is. */
  datatype Duration = Duration(date: seq<Option<string>>, time: Option<seq<Option<string>>>)

  ghost predicate AreSlots(designators: string, slots: seq<Option<string>>) {
    |slots| == |designators| && forall i :: 0 <= i < |slots| ==> slots[i].Some? ==> IsNumber(slots[i].value)
  }

  ghost predicate IsDuration(d: Duration) {
    AreSlots(DATE, d.date) && (d.time.Some? ==> AreSlots(TIME, d.time.value))
  }

  function PrintSlots(designators: string, slots: seq<Option<string>>): string
    requires |designators| == |slots|
  {
    if slots == [] then ""
    else
      (if slots[0].Some? then slots[0].value + [designators[0]] else "")
      + PrintSlots(designators[1..], slots[1..])
  }

  function PrintTime(time: Option<seq<Option<string>>>): string
    requires time.Some? ==> |time.value| == |TIME|
  {
    if time.Some? then "T" + PrintSlots(TIME, time.value) else ""
  }

  function Print(d: Duration): string
    requires |d.date| == |DATE| && (d.time.Some? ==> |d.time.value| == |TIME|)
  {
    "P" + (PrintSlots(DATE, d.date) + PrintTime(d.time))
  }

  // ---- the parser ----

  function DigitRun(s: string): (k: nat)
    ensures k <= |s| && (forall i :: 0 <= i < k ==> IsDigit(s[i])) && (k < |s| ==> !IsDigit(s[k]))
  {
    if s == "" || !IsDigit(s[0]) then 0 else 1 + DigitRun(s[1..])
  }

  /** `(?:(\\d+)X)?`: a run of digits and the designator X, or nothing. */
  function ReadSlot(designator: char, s: string): (r: (Option<string>, string))
    ensures r.0.Some? ==> IsNumber(r.0.value) && s == r.0.value + [designator] + r.1
    ensures r.0.None? ==> r.1 == s
  {
    var k := DigitRun(s);
    if 0 < k < |s| && s[k] == designator then (Some(s[..k]), s[k + 1..]) else (None, s)
  }

  function ReadSlots(designators: string, s: string): (r: (seq<Option<string>>, string))
    ensures AreSlots(designators, r.0)
  {
    if designators == "" then ([], s)
    else
      var first := ReadSlot(designators[0], s);
      var rest := ReadSlots(designators[1..], first.1);
      ([first.0] + rest.0, rest.1)
  }

  function ParseGrammar(s: string): (r: Option<Duration>)
    ensures r.Some? ==> IsDuration(r.value)
  {
    if s == "" || s[0] != 'P' then None
    else
      var date := ReadSlots(DATE, s[1..]);
      if date.1 == "" then Some(Duration(date.0, None))
      else if date.1[0] != 'T' then None
      else
        var time := ReadSlots(TIME, date.1[1..]);
        if time.1 == "" then Some(Duration(date.0, Some(time.0))) else None
  }

  // ---- the parser reads back exactly what the grammar prints ----

  lemma {:induction false} DigitRunOf(number: string, tail: string)
    requires AllDigits(number)
    requires tail == "" || !IsDigit(tail[0])
    ensures DigitRun(number + tail) == |number|
  {
    if number == "" {
      assert number + tail == tail;
    } else {
      assert (number + tail)[1..] == number[1..] + tail;
      DigitRunOf(number[1..], tail);
    }
  }

  lemma ReadWritten(designator: char, number: string, tail: string)
    requires IsNumber(number) && !IsDigit(designator)
    ensures ReadSlot(designator, number + [designator] + tail) == (Some(number), tail)
  {
    assert number + [designator] + tail == number + ([designator] + tail);
    DigitRunOf(number, [designator] + tail);
  }

  ghost predicate AreDesignators(designators: string) {
    Distinct(designators) && forall i :: 0 <= i < |designators| ==> !IsDigit(designators[i])
  }

  /** What may follow the slots: the end, or something that is no number. */
  ghost predicate IsTail(tail: string) {
    tail == "" || !IsDigit(tail[0])
  }

  /** A designator that is not among the printed ones is not read where they begin. This is what
      keeps the month and the minute apart. */
  lemma {:induction false} ForeignDesignator(d: char, designators: string, slots: seq<Option<string>>, tail: string)
    requires AreSlots(designators, slots) && AreDesignators(designators) && IsTail(tail)
    requires d !in designators
    ensures ReadSlot(d, PrintSlots(designators, slots) + tail) == (None, PrintSlots(designators, slots) + tail)
  {
    if slots == [] {
      assert PrintSlots(designators, slots) + tail == "" + tail;
      DigitRunOf("", tail);
    } else if slots[0].None? {
      assert PrintSlots(designators, slots) == PrintSlots(designators[1..], slots[1..]);
      assert forall i :: 0 <= i < |designators[1..]| ==> designators[1..][i] in designators;
      ForeignDesignator(d, designators[1..], slots[1..], tail);
    } else {
      var rest := PrintSlots(designators[1..], slots[1..]) + tail;
      var s := PrintSlots(designators, slots) + tail;
      assert s == slots[0].value + ([designators[0]] + rest);
      DigitRunOf(slots[0].value, [designators[0]] + rest);
      assert s[|slots[0].value|] == designators[0];
      assert designators[0] in designators;
    }
  }

  lemma JoinThree(a: string, b: string, c: string)
    ensures a + b + c == a + (b + c)
  {
  }

  /** The first slot is read back, whether it is filled or not. */
  lemma ReadFirstSlot(designators: string, slots: seq<Option<string>>, tail: string)
    requires AreSlots(designators, slots) && AreDesignators(designators) && IsTail(tail) && slots != []
    ensures ReadSlot(designators[0], PrintSlots(designators, slots) + tail)
         == (slots[0], PrintSlots(designators[1..], slots[1..]) + tail)
  {
    var d, rest := designators[0], PrintSlots(designators[1..], slots[1..]);
    if slots[0].Some? {
      var number := slots[0].value;
      ReadWritten(d, number, rest + tail);
      assert PrintSlots(designators, slots) == number + [d] + rest;
      JoinThree(number + [d], rest, tail);
    } else {
      assert d !in designators[1..];
      ForeignDesignator(d, designators[1..], slots[1..], tail);
      assert PrintSlots(designators, slots) == rest;
    }
  }

  lemma {:induction false} ReadPrintedSlots(designators: string, slots: seq<Option<string>>, tail: string)
    requires AreSlots(designators, slots) && AreDesignators(designators) && IsTail(tail)
    ensures ReadSlots(designators, PrintSlots(designators, slots) + tail) == (slots, tail)
  {
    if slots == [] {
      assert PrintSlots(designators, slots) + tail == tail;
    } else {
      ReadFirstSlot(designators, slots, tail);
      ReadPrintedSlots(designators[1..], slots[1..], tail);
      assert [slots[0]] + slots[1..] == slots;
    }
  }

  lemma {:induction false} ReadSlotsIsFaithful(designators: string, s: string)
    ensures var r := ReadSlots(designators, s); s == PrintSlots(designators, r.0) + r.1
  {
    if designators == "" {
      assert s == "" + s;
    } else {
      var first := ReadSlot(designators[0], s);
      ReadSlotsIsFaithful(designators[1..], first.1);
      var rest := ReadSlots(designators[1..], first.1);
      assert ([first.0] + rest.0)[1..] == rest.0;
      var head := if first.0.Some? then first.0.value + [designators[0]] else "";
      assert s == head + first.1;
      JoinThree(head, PrintSlots(designators[1..], rest.0), rest.1);
    }
  }

  lemma ParseOfPrint(d: Duration)
    requires IsDuration(d)
    ensures ParseGrammar(Print(d)) == Some(d)
  {
    var tail := PrintTime(d.time);
    assert Print(d)[1..] == PrintSlots(DATE, d.date) + tail;
    assert d.time.Some? ==> tail[0] == 'T';
    ReadPrintedSlots(DATE, d.date, tail);
    if d.time.Some? {
      var time := PrintSlots(TIME, d.time.value);
      assert tail[1..] == time == time + "";
      ReadPrintedSlots(TIME, d.time.value, "");
    }
  }

  lemma PrintOfTime(tail: string)
    requires tail != "" && tail[0] == 'T' && ReadSlots(TIME, tail[1..]).1 == ""
    ensures PrintTime(Some(ReadSlots(TIME, tail[1..]).0)) == tail
  {
    var time := ReadSlots(TIME, tail[1..]);
    ReadSlotsIsFaithful(TIME, tail[1..]);
    assert PrintSlots(TIME, time.0) + "" == PrintSlots(TIME, time.0);
    assert tail == "T" + tail[1..];
  }

  /** What is left after the date slots is what the time prints as. */
  lemma TimeOfParse(s: string)
    requires ParseGrammar(s).Some?
    ensures ParseGrammar(s).value.date == ReadSlots(DATE, s[1..]).0
    ensures PrintTime(ParseGrammar(s).value.time) == ReadSlots(DATE, s[1..]).1
  {
    var rest := ReadSlots(DATE, s[1..]).1;
    if rest != "" { PrintOfTime(rest); }
  }

  lemma PrintOfParse(s: string)
    requires ParseGrammar(s).Some?
    ensures Print(ParseGrammar(s).value) == s
  {
    var d, date := ParseGrammar(s).value, ReadSlots(DATE, s[1..]);
    TimeOfParse(s);
    calc {
      Print(d);
      "P" + (PrintSlots(DATE, d.date) + PrintTime(d.time));
      "P" + (PrintSlots(DATE, date.0) + date.1);
      { ReadSlotsIsFaithful(DATE, s[1..]); }
      "P" + s[1..];
      s;
    }
  }

  ghost predicate InGrammar(s: string) {
    exists d: Duration :: IsDuration(d) && Print(d) == s
  }

  /** Although 'M' means both months and minutes, a string splits into components in one way only. */
  lemma SplitIsUnique(c: Duration, d: Duration)
    requires IsDuration(c) && IsDuration(d) && Print(c) == Print(d)
    ensures c == d
  {
    ParseOfPrint(c);
    ParseOfPrint(d);
  }

  lemma ParserDecidesGrammar(s: string)
    ensures ParseGrammar(s).Some? <==> InGrammar(s)
  {
    if ParseGrammar(s).Some? {
      PrintOfParse(s);
    }
    if InGrammar(s) {
      var d: Duration :| IsDuration(d) && Print(d) == s;
      ParseOfPrint(d);
    }
  }

  // ---- what a duration is worth ----

  /** `int(text)`, for digits. */
  function DigitsValue(text: string): nat
    requires AllDigits(text)
  {
    if text == "" then 0
    else DigitsValue(text[..|text| - 1]) * 10 + (text[|text| - 1] - '0') as nat
  }

  /** `int(g) if g else 0`. */
  function Number(slot: Option<string>): nat
    requires slot.Some? ==> IsNumber(slot.value)
  {
    if slot.Some? then DigitsValue(slot.value) else 0
  }

  /** The numbers in the slots, each times its weight. */
  function Weighted(slots: seq<Option<string>>, weights: seq<nat>): nat
    requires |slots| == |weights| && forall i :: 0 <= i < |slots| ==> slots[i].Some? ==> IsNumber(slots[i].value)
  {
    if slots == [] then 0 else Number(slots[0]) * weights[0] + Weighted(slots[1..], weights[1..])
  }

  /** In seconds: years count 365 days, months 30, weeks 7. */
  const DATE_WEIGHTS: seq<nat> := [365 * 86400, 30 * 86400, 7 * 86400, 86400]
  const TIME_WEIGHTS: seq<nat> := [3600, 60, 1]

  function Worth(d: Duration): nat
    requires IsDuration(d)
  {
    Weighted(d.date, DATE_WEIGHTS) + if d.time.Some? then Weighted(d.time.value, TIME_WEIGHTS) else 0
  }

  /** The pattern's final `$` also matches just before one trailing newline. */
  function Body(spec: string): string {
    if spec != "" && spec[|spec| - 1] == '\n' then spec[..|spec| - 1] else spec
  }

  /** `parse_iso_duration`, in seconds. */
  function ParseIsoDuration(spec: string): Result<nat> {
    var m := ParseGrammar(Body(spec));
    if m.None? || spec == "P" then Failure("invalid ISO 8601 duration") else Success(Worth(m.value))
  }

  /** Accepted is exactly what matches the grammar, except the bare "P". */
  lemma AcceptedExactly(spec: string)
    ensures ParseIsoDuration(spec).Success? <==> InGrammar(Body(spec)) && spec != "P"
    ensures InGrammar("P")
  {
    ParserDecidesGrammar(Body(spec));
    var none: Duration := Duration([None, None, None, None], None);
    PrintNothing(DATE, none.date);
    assert Print(none) == "P";
  }

  /** The bare "P" is let through after all when a newline follows it. */
  lemma NewlineHidesBareP()
    ensures ParseIsoDuration("P").Failure? && ParseIsoDuration("P\n").Success?
  {
    AcceptedExactly("P");
    AcceptedExactly("P\n");
    assert "P\n"[..1] == "P";
  }

  lemma {:induction false} PrintNothing(designators: string, slots: seq<Option<string>>)
    requires |designators| == |slots| && forall i :: 0 <= i < |slots| ==> slots[i].None?
    ensures PrintSlots(designators, slots) == ""
  {
    if slots != [] { PrintNothing(designators[1..], slots[1..]); }
  }

  lemma {:induction false} PrintedHasNoNewline(designators: string, slots: seq<Option<string>>)
    requires AreSlots(designators, slots) && '\n' !in designators
    ensures '\n' !in PrintSlots(designators, slots)
  {
    if slots != [] {
      assert forall i :: 0 <= i < |designators[1..]| ==> designators[1..][i] in designators;
      PrintedHasNoNewline(designators[1..], slots[1..]);
    }
  }

  lemma ParsedPrint(d: Duration)
    requires IsDuration(d) && Print(d) != "P"
    ensures ParseIsoDuration(Print(d)) == Success(Worth(d))
  {
    PrintedHasNoNewline(DATE, d.date);
    if d.time.Some? { PrintedHasNoNewline(TIME, d.time.value); }
    assert '\n' !in Print(d);
    assert Body(Print(d)) == Print(d);
    ParseOfPrint(d);
  }

  lemma WeightedFrom(slots: seq<Option<string>>, weights: seq<nat>, k: nat, w: nat)
    requires k < |slots| == |weights| && weights[k] == w
    requires forall i :: 0 <= i < |slots| ==> slots[i].Some? ==> IsNumber(slots[i].value)
    ensures Weighted(slots[k..], weights[k..]) == Number(slots[k]) * w + Weighted(slots[k + 1..], weights[k + 1..])
  {
    assert slots[k..][1..] == slots[k + 1..] && weights[k..][1..] == weights[k + 1..];
  }

  lemma DateIsWorth(slots: seq<Option<string>>)
    requires AreSlots(DATE, slots)
    ensures Weighted(slots, DATE_WEIGHTS)
         == Number(slots[0]) * 31536000 + Number(slots[1]) * 2592000 + Number(slots[2]) * 604800
            + Number(slots[3]) * 86400
  {
    assert slots[0..] == slots && DATE_WEIGHTS[0..] == DATE_WEIGHTS && slots[4..] == [];
    WeightedFrom(slots, DATE_WEIGHTS, 0, 31536000);
    WeightedFrom(slots, DATE_WEIGHTS, 1, 2592000);
    WeightedFrom(slots, DATE_WEIGHTS, 2, 604800);
    WeightedFrom(slots, DATE_WEIGHTS, 3, 86400);
  }

  lemma TimeIsWorth(slots: seq<Option<string>>)
    requires AreSlots(TIME, slots)
    ensures Weighted(slots, TIME_WEIGHTS) == Number(slots[0]) * 3600 + Number(slots[1]) * 60 + Number(slots[2])
  {
    assert slots[0..] == slots && TIME_WEIGHTS[0..] == TIME_WEIGHTS && slots[3..] == [];
    WeightedFrom(slots, TIME_WEIGHTS, 0, 3600);
    WeightedFrom(slots, TIME_WEIGHTS, 1, 60);
    WeightedFrom(slots, TIME_WEIGHTS, 2, 1);
  }

  lemma WorthIsSum(d: Duration)
    requires IsDuration(d)
    ensures var t := if d.time.Some? then d.time.value else [None, None, None];
            Worth(d)
            == Number(d.date[0]) * 31536000 + Number(d.date[1]) * 2592000 + Number(d.date[2]) * 604800
               + Number(d.date[3]) * 86400
               + Number(t[0]) * 3600 + Number(t[1]) * 60 + Number(t[2])
  {
    DateIsWorth(d.date);
    if d.time.Some? { TimeIsWorth(d.time.value); }
  }

  /** Printing components and parsing them gives their weighted sum, in seconds. */
  lemma ParsedPrintIsWorth(d: Duration)
    requires IsDuration(d) && Print(d) != "P"
    ensures var t := if d.time.Some? then d.time.value else [None, None, None];
            ParseIsoDuration(Print(d))
            == Success(Number(d.date[0]) * 31536000 + Number(d.date[1]) * 2592000 + Number(d.date[2]) * 604800
                       + Number(d.date[3]) * 86400
                       + Number(t[0]) * 3600 + Number(t[1]) * 60 + Number(t[2]))
  {
    ParsedPrint(d);
    WorthIsSum(d);
  }

  // ---- durations given as numbers ----

  /** A number in decimal, without leading zeros. */
  function Decimal(n: nat): (s: string)
    ensures IsNumber(s)
  {
    if n == 0 then "0"
    else
      var ds := ToDigits(10, n);
      assert ds != [];
      seq(|ds|, i requires 0 <= i < |ds| => '0' + ds[i] as char)
  }

  lemma {:induction false} ValueOfDigits(ds: seq<nat>, text: string)
    requires InBase(10, ds) && |text| == |ds|
    requires forall i :: 0 <= i < |ds| ==> text[i] == '0' + ds[i] as char
    ensures AllDigits(text) && DigitsValue(text) == FromDigits(10, ds)
  {
    if ds != [] {
      ValueOfDigits(ds[..|ds| - 1], text[..|ds| - 1]);
    }
  }

  lemma NumberOfDecimal(n: nat)
    ensures Number(Some(Decimal(n))) == n
  {
    if n == 0 {
      assert DigitsValue("0"[..0]) == 0;
    } else {
      ValueOfDigits(ToDigits(10, n), Decimal(n));
      FromToDigits(10, n);
    }
  }

  function Spell(n: nat): Option<string> {
    if n == 0 then None else Some(Decimal(n))
  }

  lemma NumberOfSpell(n: nat)
    ensures Number(Spell(n)) == n
  {
    if n != 0 { NumberOfDecimal(n); }
  }

  function Spelled(numbers: seq<nat>): (slots: seq<Option<string>>)
    ensures |slots| == |numbers|
    ensures forall i :: 0 <= i < |slots| ==> slots[i] == Spell(numbers[i])
  {
    seq(|numbers|, i requires 0 <= i < |numbers| => Spell(numbers[i]))
  }

  lemma SpelledIsDuration(date: seq<nat>, time: seq<nat>)
    requires |date| == 4 && |time| == 3
    ensures var d := Duration(Spelled(date), Some(Spelled(time))); IsDuration(d) && Print(d) != "P"
  {
    var d := Duration(Spelled(date), Some(Spelled(time)));
    assert AreSlots(DATE, d.date) && AreSlots(TIME, d.time.value);
    assert |Print(d)| >= 2;
  }

  /** Seven numbers, written down. */
  function Written(date: seq<nat>, time: seq<nat>): string
    requires |date| == 4 && |time| == 3
  {
    Print(Duration(Spelled(date), Some(Spelled(time))))
  }

  lemma NumbersAreWorth(d: Duration, date: seq<nat>, time: seq<nat>)
    requires IsDuration(d) && d.time.Some? && Print(d) != "P" && |date| == 4 && |time| == 3
    requires forall i :: 0 <= i < 4 ==> Number(d.date[i]) == date[i]
    requires forall i :: 0 <= i < 3 ==> Number(d.time.value[i]) == time[i]
    ensures ParseIsoDuration(Print(d))
         == Success(date[0] * 31536000 + date[1] * 2592000 + date[2] * 604800 + date[3] * 86400
                    + time[0] * 3600 + time[1] * 60 + time[2])
  {
    ParsedPrintIsWorth(d);
  }

  /** Any combination of numbers can be written down, and is read back as its weighted sum. */
  lemma NumbersRoundTrip(date: seq<nat>, time: seq<nat>)
    requires |date| == 4 && |time| == 3
    ensures ParseIsoDuration(Written(date, time))
         == Success(date[0] * 31536000 + date[1] * 2592000 + date[2] * 604800 + date[3] * 86400
                    + time[0] * 3600 + time[1] * 60 + time[2])
  {
    var d := Duration(Spelled(date), Some(Spelled(time)));
    SpelledIsDuration(date, time);
    forall i | 0 <= i < 4 ensures Number(d.date[i]) == date[i] { NumberOfSpell(date[i]); }
    forall i | 0 <= i < 3 ensures Number(d.time.value[i]) == time[i] { NumberOfSpell(time[i]); }
    NumbersAreWorth(d, date, time);
  }

  // ---- each designator on its own ----

  lemma PrintCons(designators: string, slots: seq<Option<string>>)
    requires slots != [] && |designators| == |slots|
    ensures PrintSlots(designators, slots)
         == (if slots[0].Some? then slots[0].value + [designators[0]] else "")
            + PrintSlots(designators[1..], slots[1..])
  {
  }

  /** Only the `k`-th slot is filled. */
  function Single(count: nat, k: nat, n: nat): (slots: seq<Option<string>>)
    requires k < count
    ensures |slots| == count
    ensures forall i :: 0 <= i < count ==> slots[i] == if i == k then Some(Decimal(n)) else None
  {
    seq(count, i => if i == k then Some(Decimal(n)) else None)
  }

  lemma {:induction false} PrintSingle(designators: string, k: nat, n: nat)
    requires k < |designators|
    ensures PrintSlots(designators, Single(|designators|, k, n)) == Decimal(n) + [designators[k]]
  {
    var slots := Single(|designators|, k, n);
    PrintCons(designators, slots);
    if k == 0 {
      PrintNothing(designators[1..], slots[1..]);
    } else {
      PrintSingle(designators[1..], k - 1, n);
      assert slots[1..] == Single(|designators[1..]|, k - 1, n);
    }
  }

  lemma PrintSingleDate(k: nat, n: nat)
    requires k < 4
    ensures var d := Duration(Single(4, k, n), None);
            IsDuration(d) && Print(d) == "P" + Decimal(n) + [DATE[k]] && Print(d) != "P"
  {
    PrintSingle(DATE, k, n);
  }

  lemma JoinTime(a: string, b: string)
    ensures "P" + ("" + ("T" + (a + b))) == "PT" + a + b
  {
  }

  lemma PrintSingleTime(k: nat, n: nat)
    requires k < 3
    ensures var d := Duration([None, None, None, None], Some(Single(3, k, n)));
            IsDuration(d) && Print(d) == "PT" + Decimal(n) + [TIME[k]] && Print(d) != "P"
  {
    PrintNothing(DATE, [None, None, None, None]);
    PrintSingle(TIME, k, n);
    JoinTime(Decimal(n), [TIME[k]]);
  }

  lemma NumbersOfSingle(count: nat, k: nat, n: nat)
    requires k < count
    ensures forall i :: 0 <= i < count ==> Number(Single(count, k, n)[i]) == if i == k then n else 0
  {
    NumberOfDecimal(n);
  }

  lemma OnlyDate(slots: seq<Option<string>>, k: nat, n: nat)
    requires AreSlots(DATE, slots) && k < 4 && Print(Duration(slots, None)) != "P"
    requires forall i :: 0 <= i < 4 ==> Number(slots[i]) == if i == k then n else 0
    ensures ParseIsoDuration(Print(Duration(slots, None)))
         == Success((if k == 0 then 31536000 else if k == 1 then 2592000 else if k == 2 then 604800 else 86400) * n)
  {
    ParsedPrintIsWorth(Duration(slots, None));
  }

  lemma OnlyTime(date: seq<Option<string>>, slots: seq<Option<string>>, k: nat, n: nat)
    requires AreSlots(DATE, date) && forall i :: 0 <= i < 4 ==> date[i] == None
    requires AreSlots(TIME, slots) && k < 3 && Print(Duration(date, Some(slots))) != "P"
    requires forall i :: 0 <= i < 3 ==> Number(slots[i]) == if i == k then n else 0
    ensures ParseIsoDuration(Print(Duration(date, Some(slots))))
         == Success((if k == 0 then 3600 else if k == 1 then 60 else 1) * n)
  {
    ParsedPrintIsWorth(Duration(date, Some(slots)));
  }

  lemma DateUnit(k: nat, n: nat)
    requires k < 4
    ensures ParseIsoDuration("P" + Decimal(n) + [DATE[k]])
         == Success((if k == 0 then 31536000 else if k == 1 then 2592000 else if k == 2 then 604800 else 86400) * n)
  {
    PrintSingleDate(k, n);
    NumbersOfSingle(4, k, n);
    OnlyDate(Single(4, k, n), k, n);
  }

  lemma TimeUnit(k: nat, n: nat)
    requires k < 3
    ensures ParseIsoDuration("PT" + Decimal(n) + [TIME[k]])
         == Success((if k == 0 then 3600 else if k == 1 then 60 else 1) * n)
  {
    PrintSingleTime(k, n);
    NumbersOfSingle(3, k, n);
    OnlyTime([None, None, None, None], Single(3, k, n), k, n);
  }

  // What every designator stands for, 'M' in both of its places.

  lemma YearsAreWorth(n: nat)
    ensures ParseIsoDuration("P" + Decimal(n) + "Y") == Success(31536000 * n)
  {
    DateUnit(0, n);
    assert "P" + Decimal(n) + [DATE[0]] == "P" + Decimal(n) + "Y";
  }

  lemma MonthsAreWorth(n: nat)
    ensures ParseIsoDuration("P" + Decimal(n) + "M") == Success(2592000 * n)
  {
    DateUnit(1, n);
    assert "P" + Decimal(n) + [DATE[1]] == "P" + Decimal(n) + "M";
  }

  lemma WeeksAreWorth(n: nat)
    ensures ParseIsoDuration("P" + Decimal(n) + "W") == Success(604800 * n)
  {
    DateUnit(2, n);
    assert "P" + Decimal(n) + [DATE[2]] == "P" + Decimal(n) + "W";
  }

  lemma DaysAreWorth(n: nat)
    ensures ParseIsoDuration("P" + Decimal(n) + "D") == Success(86400 * n)
  {
    DateUnit(3, n);
    assert "P" + Decimal(n) + [DATE[3]] == "P" + Decimal(n) + "D";
  }

  lemma HoursAreWorth(n: nat)
    ensures ParseIsoDuration("PT" + Decimal(n) + "H") == Success(3600 * n)
  {
    TimeUnit(0, n);
    assert "PT" + Decimal(n) + [TIME[0]] == "PT" + Decimal(n) + "H";
  }

  lemma MinutesAreWorth(n: nat)
    ensures ParseIsoDuration("PT" + Decimal(n) + "M") == Success(60 * n)
  {
    TimeUnit(1, n);
    assert "PT" + Decimal(n) + [TIME[1]] == "PT" + Decimal(n) + "M";
  }

  lemma SecondsAreWorth(n: nat)
    ensures ParseIsoDuration("PT" + Decimal(n) + "S") == Success(n)
  {
    TimeUnit(2, n);
    assert "PT" + Decimal(n) + [TIME[2]] == "PT" + Decimal(n) + "S";
  }

  /** With real digits. */
  lemma NinetyMinutes()
    ensures ParseIsoDuration("PT90M") == Success(5400)
  {
    assert ToDigits(10, 9) == ToDigits(10, 0) + [9] == [9];
    assert ToDigits(10, 90) == ToDigits(10, 9) + [0] == [9, 0];
    assert Decimal(90) == "90";
    MinutesAreWorth(90);
    assert "PT" + "90" + "M" == "PT90M";
  }
}
