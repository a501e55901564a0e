/**
 * The duration-to-minutes conversion and the price computation of
 * `utils/math_time_price.py`.
 *
 * `convert_time` does not parse the duration: it rewrites the text with a
 * fixed sequence of guarded `str.replace` calls until it looks like an
 * arithmetic expression, trims one dangling `" + "` and hands the result to
 * `eval`. Weeks are multiplied by 40 and days by 8 (the two constants, meant
 * as hours) and added, unscaled, to a sum that counts minutes.
 */
module MathTimePrice {
  import opened Wrappers
  import opened PyStr
  import opened PyEval

  /** `HOURS_IN_ONE_WEAK`: spliced into the expression as text. */
  const HoursInOneWeek: string := "40"

  /** `HOURS_IN_ONE_DAY`: spliced into the expression as text. */
  const HoursInOneDay: string := "8"

  const WeekRep: string := " * " + HoursInOneWeek + " + "
  const DayRep: string := " * " + HoursInOneDay + " + "
  const HourRep: string := " * 60 + "

  /**
   * One `if key in time:` block: replace `key`, then drop every `T` and
   * every `P`. Without an occurrence of `key` the text is left alone.
   */
  function GuardedStep(t: string, key: string, rep: string): string {
    if Contains(t, key) then Replace(Replace(Replace(t, key, rep), "T", ""), "P", "") else t
  }

  function WeekStep(t: string): string { GuardedStep(t, "W", WeekRep) }

  function DayStep(t: string): string { GuardedStep(t, "DT", DayRep) }

  function HourStep(t: string): string { GuardedStep(t, "H", HourRep) }

  function MinuteStep(t: string): string { GuardedStep(t, "M", "") }

  /** Drops one trailing `" + "`, if there is one. */
  function TrimPlus(t: string): string {
    if EndsWith(t, " + ") then t[..|t| - 3] else t
  }

  /** The text `convert_time` hands to `eval`. */
  function Rewrite(time: string): string {
    TrimPlus(MinuteStep(HourStep(DayStep(WeekStep(Replace(time, "PT", ""))))))
  }

  /** What `convert_time` returns; `None` where `eval` raises. */
  function Minutes(time: string): (r: Option<int>)
    ensures r.Some? ==> r.value >= 0
  {
    Eval(Rewrite(time))
  }

  /** `convert_time`, rebinding its local text one statement at a time. */
  method ConvertTime(time: string) returns (minutes: Option<int>)
    ensures minutes == Minutes(time)
  {
    var t := Replace(time, "PT", "");
    ghost var t0 := t;
    if Contains(t, "W") {
      t := Replace(t, "W", " * " + HoursInOneWeek + " + ");
      t := Replace(t, "T", "");
      t := Replace(t, "P", "");
    }
    assert t == WeekStep(t0);
    ghost var t1 := t;
    if Contains(t, "DT") {
      t := Replace(t, "DT", " * " + HoursInOneDay + " + ");
      t := Replace(t, "T", "");
      t := Replace(t, "P", "");
    }
    assert t == DayStep(t1);
    ghost var t2 := t;
    if Contains(t, "H") {
      t := Replace(t, "H", " * 60 + ");
      t := Replace(t, "T", "");
      t := Replace(t, "P", "");
    }
    assert t == HourStep(t2);
    ghost var t3 := t;
    if Contains(t, "M") {
      t := Replace(t, "M", "");
      t := Replace(t, "T", "");
      t := Replace(t, "P", "");
    }
    assert t == MinuteStep(t3);
    ghost var t4 := t;
    if EndsWith(t, " + ") {
      t := t[..|t| - 3];
    }
    assert t == TrimPlus(t4);
    minutes := Eval(t);
  }

  /**
   * `math_price`: the hourly rate times the number of whole hours. Python's
   * `//` floors; for the positive divisor 60 Dafny's `/` is the same.
   */
  function MathPrice(pricePerHour: int, spentMinutes: int): int {
    pricePerHour * (spentMinutes / 60)
  }

  // ---------------------------------------------------------------------
  // Step lemmas

  predicate NoDesignator(s: string) {
    'P' !in s && 'W' !in s && 'D' !in s && 'T' !in s && 'H' !in s && 'M' !in s
  }

  /** A run of digits holds none of the designator letters. */
  lemma DigitsOnly(ds: string)
    requires AllDigits(ds)
    ensures NoDesignator(ds)
  {
  }

  /** A step whose key cannot occur changes nothing. */
  lemma StepSkips(t: string, key: string, rep: string)
    requires |key| > 0 && key[0] !in t
    ensures GuardedStep(t, key, rep) == t
  {
    ContainsNeedsChar(t, key, key[0]);
  }

  /** A character in none of three texts is in none of their concatenation. */
  lemma NotIn3(x: char, a: string, b: string, c: string)
    requires x !in a && x !in b && x !in c
    ensures x !in a + b + c
  {
  }

  /** A step whose key occurs once, in text with no `T` or `P`, replaces just it. */
  lemma StepFires(a: string, key: string, b: string, rep: string)
    requires |key| > 0 && key[0] !in a && key[0] !in b
    requires 'T' !in a && 'T' !in rep && 'T' !in b && 'P' !in a && 'P' !in rep && 'P' !in b
    ensures GuardedStep(a + key + b, key, rep) == a + rep + b
  {
    ContainsMiddle(a, key, b);
    ReplaceOnce(a, key, b, rep);
    NotIn3('T', a, rep, b);
    NotIn3('P', a, rep, b);
    ReplaceNone(a + rep + b, "T", "");
    ReplaceNone(a + rep + b, "P", "");
  }

  /** The same after a leading `P`, which the step's last replacement removes. */
  lemma StepFiresAfterP(a: string, key: string, b: string, rep: string)
    requires |key| > 0 && key[0] != 'P' && key[0] !in a && key[0] !in b
    requires 'T' !in a && 'T' !in rep && 'T' !in b && 'P' !in a && 'P' !in rep && 'P' !in b
    ensures GuardedStep("P" + a + key + b, key, rep) == a + rep + b
  {
    var pa := "P" + a;
    var v := a + rep + b;
    assert key[0] !in pa;
    assert "P" + a + key + b == pa + key + b;
    ContainsMiddle(pa, key, b);
    ReplaceOnce(pa, key, b, rep);
    NotIn3('T', a, rep, b);
    NotIn3('P', a, rep, b);
    assert pa + rep + b == [] + "P" + v;
    assert 'T' !in [] + "P" + v;
    ReplaceNone([] + "P" + v, "T", "");
    ReplaceOnce([], "P", v, "");
    assert [] + "" + v == v;
  }

  /** A character that is neither part of the key nor `T` nor `P` survives a step. */
  lemma StepKeeps(t: string, key: string, rep: string, x: char)
    requires x in t && x !in key && x != 'T' && x != 'P'
    ensures x in GuardedStep(t, key, rep)
  {
    var u := Replace(t, key, rep);
    ReplaceKeeps(t, key, rep, x);
    ReplaceKeeps(u, "T", "", x);
    ReplaceKeeps(Replace(u, "T", ""), "P", "", x);
  }

  /** A step adds no character that is in neither its input nor its replacement. */
  lemma StepChars(t: string, key: string, rep: string, x: char)
    ensures x in GuardedStep(t, key, rep) ==> x in t || x in rep
  {
    var u := Replace(t, key, rep);
    var v := Replace(u, "T", "");
    ReplaceChars(t, key, rep, x);
    ReplaceChars(u, "T", "", x);
    ReplaceChars(v, "P", "", x);
  }

  /** A step on a one-letter key that its replacement lacks removes that letter. */
  lemma StepRemoves(t: string, c: char, rep: string)
    requires c !in rep
    ensures c !in GuardedStep(t, [c], rep)
  {
    var u := Replace(t, [c], rep);
    var v := Replace(u, "T", "");
    ContainsChar(t, c);
    ReplaceRemoves(t, c, rep);
    ReplaceChars(u, "T", "", c);
    ReplaceChars(v, "P", "", c);
  }

  lemma TrimChars(t: string, x: char)
    ensures x in TrimPlus(t) ==> x in t
  {
    if EndsWith(t, " + ") {
      assert t == t[..|t| - 3] + t[|t| - 3..];
    }
  }

  lemma TrimKeeps(t: string, x: char)
    requires x in t && x !in " + "
    ensures x in TrimPlus(t)
  {
    if EndsWith(t, " + ") {
      var i :| 0 <= i < |t| && t[i] == x;
      assert t[|t| - 3..] == " + ";
      assert i < |t| - 3 by {
        assert forall j :: |t| - 3 <= j < |t| ==> t[j] == " + "[j - (|t| - 3)];
      }
      assert t[..|t| - 3][i] == x;
    }
  }

  /** Text ending in a digit has no `" + "` to trim. */
  lemma TrimDigitEnd(t: string)
    requires |t| > 0 && IsDigit(t[|t| - 1])
    ensures TrimPlus(t) == t
  {
    assert |t| >= 3 ==> t[|t| - 3..][2] == t[|t| - 1];
    assert !EndsWith(t, " + ");
  }

  /**
   * Once a `D` is left with no `T` anywhere, the day step cannot fire, the
   * `D` reaches `eval` and the conversion fails.
   */
  lemma {:induction false} DayLeftOver(t: string)
    requires 'D' in t && 'T' !in t
    ensures Eval(TrimPlus(MinuteStep(HourStep(DayStep(t))))) == None
  {
    ContainsNeedsChar(t, "DT", 'T');
    assert DayStep(t) == t;
    StepKeeps(t, "H", HourRep, 'D');
    StepKeeps(HourStep(t), "M", "", 'D');
    TrimKeeps(MinuteStep(HourStep(t)), 'D');
    EvalRejectsChar(TrimPlus(MinuteStep(HourStep(t))), 'D');
  }

  // ---------------------------------------------------------------------
  // What the rewriting produces for well-formed durations

  /** The replacement texts hold none of the designator letters. */
  lemma RepsHaveNoLetters()
    ensures NoDesignator(WeekRep) && NoDesignator(DayRep) && NoDesignator(HourRep)
  {
    NoLetters(WeekRep);
    NoLetters(DayRep);
    NoLetters(HourRep);
  }

  /** Text made of digits, blanks and operators holds no designator letter. */
  lemma NoLetters(s: string)
    requires forall i :: 0 <= i < |s| ==> IsExprChar(s[i])
    ensures NoDesignator(s)
  {
  }

  /** The five rewriting stages, each given by its result. */
  lemma RewriteVia(time: string, t0: string, t1: string, t2: string, t3: string, t4: string)
    requires Replace(time, "PT", "") == t0 && WeekStep(t0) == t1 && DayStep(t1) == t2
    requires HourStep(t2) == t3 && MinuteStep(t3) == t4
    ensures Rewrite(time) == TrimPlus(t4)
  {
  }

  /** A leading `PT` is removed and nothing else is touched, when no other `P` follows. */
  lemma DropPT(b: string)
    requires 'P' !in b
    ensures Replace("PT" + b, "PT", "") == b
  {
    assert "PT" + b == [] + "PT" + b;
    ReplaceOnce([], "PT", b, "");
    assert [] + "" + b == b;
  }

  /** A leading `P` followed by a digit is no `PT`, so the text is untouched. */
  lemma KeepP(s: string)
    requires |s| > 1 && s[0] == 'P' && IsDigit(s[1]) && 'P' !in s[1..]
    ensures Replace(s, "PT", "") == s
  {
    assert !StartsWith(s, "PT");
    ReplaceNone(s[1..], "PT", "");
    assert s == [s[0]] + s[1..];
  }

  /** Texts without designator letters concatenate to one. */
  lemma NoDesignatorJoin(a: string, b: string)
    requires NoDesignator(a) && NoDesignator(b)
    ensures NoDesignator(a + b)
  {
  }

  /** After letter-free text, `<h>H<m>M` becomes `<h> * 60 + <m>` in the hour and minute steps. */
  lemma TimePartSteps(a: string, hs: string, ms: string)
    requires NoDesignator(a) && AllDigits(hs) && AllDigits(ms)
    ensures MinuteStep(HourStep(a + hs + "H" + ms + "M")) == a + hs + HourRep + ms
  {
    DigitsOnly(hs);
    DigitsOnly(ms);
    RepsHaveNoLetters();
    var ah := a + hs;
    var c := ah + HourRep + ms;
    assert NoDesignator(ah) by { NoDesignatorJoin(a, hs); }
    assert HourStep(a + hs + "H" + ms + "M") == c + "M" by {
      assert a + hs + "H" + ms + "M" == ah + "H" + (ms + "M");
      StepFires(ah, "H", ms + "M", HourRep);
      assert ah + HourRep + (ms + "M") == c + "M";
    }
    assert MinuteStep(c + "M") == c by {
      assert NoDesignator(c) by {
        NoDesignatorJoin(ah, HourRep);
        NoDesignatorJoin(ah + HourRep, ms);
      }
      assert c + "M" == c + "M" + [];
      StepFires(c, "M", [], "");
      assert c + "" + [] == c;
    }
    assert c == a + hs + HourRep + ms;
  }

  /** `PT<h>H<m>M` becomes `<h> * 60 + <m>`. */
  lemma RewriteHoursMinutes(hs: string, ms: string)
    requires AllDigits(hs) && AllDigits(ms) && |ms| > 0
    ensures Rewrite("PT" + hs + "H" + ms + "M") == hs + HourRep + ms
  {
    DigitsOnly(hs);
    DigitsOnly(ms);
    RepsHaveNoLetters();
    var b := hs + "H" + ms + "M";
    var c := hs + HourRep + ms;
    assert "PT" + hs + "H" + ms + "M" == "PT" + b;
    assert Replace("PT" + b, "PT", "") == b by { DropPT(b); }
    assert WeekStep(b) == b by { StepSkips(b, "W", WeekRep); }
    assert DayStep(b) == b by { StepSkips(b, "DT", DayRep); }
    assert HourStep(b) == c + "M" by {
      assert b == hs + "H" + (ms + "M");
      StepFires(hs, "H", ms + "M", HourRep);
      assert hs + HourRep + (ms + "M") == c + "M";
    }
    assert MinuteStep(c + "M") == c by {
      NotIn3('M', hs, HourRep, ms);
      NotIn3('T', hs, HourRep, ms);
      NotIn3('P', hs, HourRep, ms);
      assert c + "M" == c + "M" + [];
      StepFires(c, "M", [], "");
      assert c + "" + [] == c;
    }
    RewriteVia("PT" + b, b, b, b, c + "M", c);
    TrimDigitEnd(c);
  }

  /** `PT<h>H` becomes `<h> * 60`: the `" + "` left by the hour step is trimmed. */
  lemma RewriteHours(hs: string)
    requires AllDigits(hs)
    ensures Rewrite("PT" + hs + "H") == hs + " * 60"
  {
    DigitsOnly(hs);
    RepsHaveNoLetters();
    var b := hs + "H";
    var c := hs + HourRep;
    assert "PT" + hs + "H" == "PT" + b;
    assert Replace("PT" + b, "PT", "") == b by { DropPT(b); }
    assert WeekStep(b) == b by { StepSkips(b, "W", WeekRep); }
    assert DayStep(b) == b by { StepSkips(b, "DT", DayRep); }
    assert HourStep(b) == c by {
      assert b == hs + "H" + [];
      StepFires(hs, "H", [], HourRep);
      assert hs + HourRep + [] == c;
    }
    assert MinuteStep(c) == c by { StepSkips(c, "M", ""); }
    RewriteVia("PT" + b, b, b, b, c, c);
    assert c == (hs + " * 60") + " + ";
    assert EndsWith(c, " + ");
    assert c[..|c| - 3] == hs + " * 60";
  }

  /** `PT<m>M` becomes `<m>`. */
  lemma RewriteMinutes(ms: string)
    requires AllDigits(ms) && |ms| > 0
    ensures Rewrite("PT" + ms + "M") == ms
  {
    DigitsOnly(ms);
    var b := ms + "M";
    assert "PT" + ms + "M" == "PT" + b;
    assert Replace("PT" + b, "PT", "") == b by { DropPT(b); }
    assert WeekStep(b) == b by { StepSkips(b, "W", WeekRep); }
    assert DayStep(b) == b by { StepSkips(b, "DT", DayRep); }
    assert HourStep(b) == b by { StepSkips(b, "H", HourRep); }
    assert MinuteStep(b) == ms by {
      assert b == ms + "M" + [];
      StepFires(ms, "M", [], "");
      assert ms + "" + [] == ms;
    }
    RewriteVia("PT" + b, b, b, b, b, ms);
    TrimDigitEnd(ms);
  }

  /** `P<d>DT<h>H<m>M` becomes `<d> * 8 + <h> * 60 + <m>`. */
  lemma RewriteDaysHoursMinutes(ds: string, hs: string, ms: string)
    requires AllDigits(ds) && AllDigits(hs) && AllDigits(ms) && |ds| > 0 && |ms| > 0
    ensures Rewrite("P" + ds + "DT" + hs + "H" + ms + "M") == ds + DayRep + hs + HourRep + ms
  {
    DigitsOnly(ds);
    DigitsOnly(hs);
    DigitsOnly(ms);
    RepsHaveNoLetters();
    var tail := hs + "H" + ms + "M";
    var s := "P" + ds + "DT" + tail;
    var a := ds + DayRep;
    var v := a + tail;
    var c := a + hs + HourRep + ms;
    assert "P" + ds + "DT" + hs + "H" + ms + "M" == s;
    assert 'W' !in tail && 'D' !in tail && 'T' !in tail && 'P' !in tail by {
      NotIn3('W', hs, "H", ms + "M");
      NotIn3('D', hs, "H", ms + "M");
      NotIn3('T', hs, "H", ms + "M");
      NotIn3('P', hs, "H", ms + "M");
    }
    assert Replace(s, "PT", "") == s by {
      assert s[1] == ds[0] && s[1..] == ds + "DT" + tail;
      assert 'P' !in s[1..] by { NotIn3('P', ds, "DT", tail); }
      KeepP(s);
    }
    assert WeekStep(s) == s by {
      assert 'W' !in s by { NotIn3('W', "P" + ds, "DT", tail); }
      StepSkips(s, "W", WeekRep);
    }
    assert DayStep(s) == v by {
      StepFiresAfterP(ds, "DT", tail, DayRep);
    }
    assert MinuteStep(HourStep(v)) == c by {
      assert NoDesignator(a) by { NoDesignatorJoin(ds, DayRep); }
      assert v == a + hs + "H" + ms + "M";
      TimePartSteps(a, hs, ms);
    }
    RewriteVia(s, s, s, v, HourStep(v), c);
    assert c[|c| - 1] == ms[|ms| - 1];
    TrimDigitEnd(c);
    assert c == ds + DayRep + hs + HourRep + ms;
  }

  /** `P<w>W` becomes `<w> * 40`. */
  lemma RewriteWeeks(ws: string)
    requires AllDigits(ws) && |ws| > 0
    ensures Rewrite("P" + ws + "W") == ws + " * " + HoursInOneWeek
  {
    DigitsOnly(ws);
    RepsHaveNoLetters();
    var s := "P" + ws + "W";
    var v := ws + WeekRep;
    assert Replace(s, "PT", "") == s by {
      assert s[1] == ws[0] && s[1..] == ws + "W";
      KeepP(s);
    }
    assert WeekStep(s) == v by {
      assert s == "P" + ws + "W" + [];
      StepFiresAfterP(ws, "W", [], WeekRep);
      assert ws + WeekRep + [] == v;
    }
    assert DayStep(v) == v by { StepSkips(v, "DT", DayRep); }
    assert HourStep(v) == v by { StepSkips(v, "H", HourRep); }
    assert MinuteStep(v) == v by { StepSkips(v, "M", ""); }
    RewriteVia(s, s, v, v, v, v);
    assert v == (ws + " * " + HoursInOneWeek) + " + ";
    assert EndsWith(v, " + ");
    assert v[..|v| - 3] == ws + " * " + HoursInOneWeek;
  }

  // ---------------------------------------------------------------------
  // convert_time

  /** The text the hour and minute steps leave is `hs * 60 + ms` written out. */
  lemma HoursMinutesSum(hs: string, ms: string) returns (e: Sum)
    requires IsLiteral(hs) && IsLiteral(ms)
    ensures SumLiterals(e) && RenderSum(e) == hs + HourRep + ms
    ensures SumValue(e) == LiteralValue(hs) * 60 + LiteralValue(ms)
  {
    var p := Times(hs, Operand("60"));
    e := Plus(p, Term(Operand(ms)));
    assert RenderProduct(p) == hs + " * " + "60";
    assert RenderSum(e) == hs + " * " + "60" + " + " + ms;
    assert " * " + "60" + " + " == HourRep;
    assert ProductValue(p) == LiteralValue(hs) * 60 by {
      assert LiteralValue("60") == 60;
    }
  }

  /** That text evaluates to the minute total. */
  lemma EvalHoursMinutesText(hs: string, ms: string)
    requires IsLiteral(hs) && IsLiteral(ms)
    ensures Eval(hs + HourRep + ms) == Some(LiteralValue(hs) * 60 + LiteralValue(ms))
  {
    var e := HoursMinutesSum(hs, ms);
    EvalRendered(hs + HourRep + ms, e, LiteralValue(hs) * 60 + LiteralValue(ms));
  }

  /** `PT<h>H<m>M` converts to `h * 60 + m` minutes. */
  lemma HoursAndMinutes(hs: string, ms: string)
    requires IsLiteral(hs) && IsLiteral(ms)
    ensures Minutes("PT" + hs + "H" + ms + "M") == Some(LiteralValue(hs) * 60 + LiteralValue(ms))
  {
    RewriteHoursMinutes(hs, ms);
    EvalHoursMinutesText(hs, ms);
  }

  /** The text the hour step leaves is `hs * 60` written out. */
  lemma HoursSum(hs: string) returns (e: Sum)
    requires IsLiteral(hs)
    ensures SumLiterals(e) && RenderSum(e) == hs + " * 60"
    ensures SumValue(e) == LiteralValue(hs) * 60
  {
    var p := Times(hs, Operand("60"));
    e := Term(p);
    assert RenderProduct(p) == hs + " * " + "60";
    assert " * " + "60" == " * 60";
    assert ProductValue(p) == LiteralValue(hs) * 60 by {
      assert LiteralValue("60") == 60;
    }
  }

  lemma EvalHoursText(hs: string)
    requires IsLiteral(hs)
    ensures Eval(hs + " * 60") == Some(LiteralValue(hs) * 60)
  {
    var e := HoursSum(hs);
    EvalRendered(hs + " * 60", e, LiteralValue(hs) * 60);
  }

  /** `PT<h>H` converts to `h * 60` minutes. */
  lemma HoursOnly(hs: string)
    requires IsLiteral(hs)
    ensures Minutes("PT" + hs + "H") == Some(LiteralValue(hs) * 60)
  {
    RewriteHours(hs);
    EvalHoursText(hs);
  }

  /**
   * `PT<m>M` with a run of digits converts exactly when the digits are a
   * literal Python accepts: `PT05M` raises, `PT00M` gives 0.
   */
  lemma MinutesOnly(ms: string)
    requires AllDigits(ms) && |ms| > 0
    ensures Minutes("PT" + ms + "M") == if IsLiteral(ms) then Some(LiteralValue(ms)) else None
  {
    RewriteMinutes(ms);
    EvalDigits(ms);
  }

  /** The text the day, hour and minute steps leave is `ds * 8 + hs * 60 + ms` written out. */
  lemma DaysHoursMinutesSum(ds: string, hs: string, ms: string) returns (e: Sum)
    requires IsLiteral(ds) && IsLiteral(hs) && IsLiteral(ms)
    ensures SumLiterals(e) && RenderSum(e) == ds + DayRep + hs + HourRep + ms
    ensures SumValue(e) == LiteralValue(ds) * 8 + LiteralValue(hs) * 60 + LiteralValue(ms)
  {
    var e1 := HoursMinutesSum(hs, ms);
    var p := Times(ds, Operand(HoursInOneDay));
    e := Plus(p, e1);
    assert RenderProduct(p) == ds + " * " + HoursInOneDay;
    assert RenderSum(e) == ds + " * " + HoursInOneDay + " + " + RenderSum(e1);
    assert ds + " * " + HoursInOneDay + " + " + RenderSum(e1) == ds + DayRep + RenderSum(e1);
    assert ProductValue(p) == LiteralValue(ds) * 8 by {
      assert LiteralValue(HoursInOneDay) == 8;
    }
  }

  /** That text evaluates to the weighted total. */
  lemma EvalDaysHoursMinutesText(ds: string, hs: string, ms: string)
    requires IsLiteral(ds) && IsLiteral(hs) && IsLiteral(ms)
    ensures Eval(ds + DayRep + hs + HourRep + ms)
         == Some(LiteralValue(ds) * 8 + LiteralValue(hs) * 60 + LiteralValue(ms))
  {
    var e := DaysHoursMinutesSum(ds, hs, ms);
    EvalRendered(ds + DayRep + hs + HourRep + ms, e, LiteralValue(ds) * 8 + LiteralValue(hs) * 60 + LiteralValue(ms));
  }

  /** `P<d>DT<h>H<m>M` converts to `d * 8 + h * 60 + m`: days count as 8. */
  lemma DaysHoursMinutes(ds: string, hs: string, ms: string)
    requires IsLiteral(ds) && IsLiteral(hs) && IsLiteral(ms)
    ensures Minutes("P" + ds + "DT" + hs + "H" + ms + "M")
         == Some(LiteralValue(ds) * 8 + LiteralValue(hs) * 60 + LiteralValue(ms))
  {
    RewriteDaysHoursMinutes(ds, hs, ms);
    EvalDaysHoursMinutesText(ds, hs, ms);
  }

  /** The text the week step leaves is `ws * 40` written out. */
  lemma WeeksSum(ws: string) returns (e: Sum)
    requires IsLiteral(ws)
    ensures SumLiterals(e) && RenderSum(e) == ws + " * " + HoursInOneWeek
    ensures SumValue(e) == LiteralValue(ws) * 40
  {
    var p := Times(ws, Operand(HoursInOneWeek));
    e := Term(p);
    assert RenderProduct(p) == ws + " * " + HoursInOneWeek;
    assert ProductValue(p) == LiteralValue(ws) * 40 by {
      assert LiteralValue(HoursInOneWeek) == 40;
    }
  }

  lemma EvalWeeksText(ws: string)
    requires IsLiteral(ws)
    ensures Eval(ws + " * " + HoursInOneWeek) == Some(LiteralValue(ws) * 40)
  {
    var e := WeeksSum(ws);
    EvalRendered(ws + " * " + HoursInOneWeek, e, LiteralValue(ws) * 40);
  }

  /** `P<w>W` converts to `w * 40`: a week counts as 40. */
  lemma WeeksOnly(ws: string)
    requires IsLiteral(ws)
    ensures Minutes("P" + ws + "W") == Some(LiteralValue(ws) * 40)
  {
    RewriteWeeks(ws);
    EvalWeeksText(ws);
  }

  /**
   * A duration with both weeks and days never converts: the week step strips
   * every `T`, so the `DT` test can no longer match and the `D` reaches `eval`.
   */
  lemma WeeksAndDaysFail(time: string)
    requires 'W' in time && 'D' in time
    ensures Minutes(time) == None
  {
    var t0 := Replace(time, "PT", "");
    ReplaceKeeps(time, "PT", "", 'W');
    ReplaceKeeps(time, "PT", "", 'D');
    ContainsChar(t0, 'W');
    var u := Replace(t0, "W", WeekRep);
    var v := Replace(u, "T", "");
    ReplaceKeeps(t0, "W", WeekRep, 'D');
    ReplaceKeeps(u, "T", "", 'D');
    ReplaceKeeps(v, "P", "", 'D');
    ReplaceRemoves(u, 'T', "");
    ReplaceChars(v, "P", "", 'T');
    assert WeekStep(t0) == Replace(v, "P", "");
    DayLeftOver(WeekStep(t0));
  }

  /** A duration with a `D` and no `T` anywhere never converts: no step consumes the `D`. */
  lemma DaysWithoutTimeFail(time: string)
    requires 'D' in time && 'T' !in time
    ensures Minutes(time) == None
  {
    var t0 := Replace(time, "PT", "");
    ReplaceKeeps(time, "PT", "", 'D');
    ReplaceChars(time, "PT", "", 'T');
    StepKeeps(t0, "W", WeekRep, 'D');
    StepChars(t0, "W", WeekRep, 'T');
    DayLeftOver(WeekStep(t0));
  }

  /** `P<d>D` converts to nothing: `eval` receives the text unchanged. */
  lemma DaysOnlyFail(ds: string)
    requires AllDigits(ds)
    ensures Minutes("P" + ds + "D") == None
  {
    var s := "P" + ds + "D";
    DigitsOnly(ds);
    assert s[|s| - 1] == 'D';
    DaysWithoutTimeFail(s);
  }

  /** A bare `PT` leaves an empty text, and `P` a name; `eval` raises on both. */
  lemma MarkerOnlyFails()
    ensures Minutes("PT") == None && Minutes("P") == None
  {
    ReplaceMatch("PT", [], "");
    assert "PT" + [] == "PT";
    assert Replace([], "PT", "") == [];
    StepSkips([], "W", WeekRep);
    StepSkips([], "DT", DayRep);
    StepSkips([], "H", HourRep);
    StepSkips([], "M", "");
    EvalDigits([]);
    assert !Contains("P", "PT");
    ReplaceAbsent("P", "PT", "");
    StepSkips("P", "W", WeekRep);
    StepSkips("P", "DT", DayRep);
    StepSkips("P", "H", HourRep);
    StepSkips("P", "M", "");
    EvalRejectsChar("P", 'P');
  }

  /**
   * A fractional component, as in `PT1.5H`, never converts: the `.` survives
   * every step and `eval` raises on it. (Python's `eval` would return a
   * float here; the model has no floats.)
   */
  lemma FractionFails(time: string)
    requires '.' in time
    ensures Minutes(time) == None
  {
    var t0 := Replace(time, "PT", "");
    var t1 := WeekStep(t0);
    var t2 := DayStep(t1);
    var t3 := HourStep(t2);
    var t4 := MinuteStep(t3);
    ReplaceKeeps(time, "PT", "", '.');
    StepKeeps(t0, "W", WeekRep, '.');
    StepKeeps(t1, "DT", DayRep, '.');
    StepKeeps(t2, "H", HourRep, '.');
    StepKeeps(t3, "M", "", '.');
    TrimKeeps(t4, '.');
    EvalRejectsChar(TrimPlus(t4), '.');
  }

  /** Designator letters a tracker duration is written with. */
  predicate IsDurationChar(c: char) {
    IsDigit(c) || c in "PWDTHM"
  }

  /** Every character of the rewritten text comes from the input or a replacement, and no `W`, `H` or `M` is left. */
  lemma RewriteChars(time: string, x: char)
    requires x in Rewrite(time)
    ensures x in time || x in WeekRep || x in DayRep || x in HourRep
    ensures x != 'W' && x != 'H' && x != 'M'
  {
    var t0 := Replace(time, "PT", "");
    var t1 := WeekStep(t0);
    var t2 := DayStep(t1);
    var t3 := HourStep(t2);
    var t4 := MinuteStep(t3);
    TrimChars(t4, x);
    StepChars(t3, "M", "", x);
    StepChars(t2, "H", HourRep, x);
    StepChars(t1, "DT", DayRep, x);
    StepChars(t0, "W", WeekRep, x);
    ReplaceChars(time, "PT", "", x);
    StepRemoves(t0, 'W', WeekRep);
    StepChars(t1, "DT", DayRep, 'W');
    StepChars(t2, "H", HourRep, 'W');
    StepChars(t3, "M", "", 'W');
    StepRemoves(t2, 'H', HourRep);
    StepChars(t3, "M", "", 'H');
    StepRemoves(t3, 'M', "");
  }

  /**
   * On a duration made of designator letters and digits, the text handed to
   * `eval` holds only digits, blanks, `*`, `+` and the letters `D`, `P`, `T`;
   * and whatever converts is a non-negative number of minutes.
   */
  lemma ConvertNonNegative(time: string)
    requires forall c :: c in time ==> IsDurationChar(c)
    ensures forall x :: x in Rewrite(time) ==> IsExprChar(x) || x in "DPT"
    ensures Minutes(time).Some? ==> Minutes(time).value >= 0
  {
    forall x | x in Rewrite(time)
      ensures IsExprChar(x) || x in "DPT"
    {
      RewriteChars(time, x);
    }
  }

  // ---------------------------------------------------------------------
  // math_price

  /** The price is the rate times the whole hours in the time spent, rounding down. */
  lemma PriceWholeHours(rate: int, spent: int, hours: int)
    requires hours * 60 <= spent < hours * 60 + 60
    ensures MathPrice(rate, spent) == rate * hours
  {
    assert spent / 60 == hours;
  }

  /** Less than an hour costs nothing. */
  lemma PriceUnderAnHour(rate: int, spent: int)
    requires 0 <= spent < 60
    ensures MathPrice(rate, spent) == 0
  {
    PriceWholeHours(rate, spent, 0);
  }

  /** Two times in the same hour cost the same. */
  lemma PriceSameHour(rate: int, t1: int, t2: int)
    requires t1 / 60 == t2 / 60
    ensures MathPrice(rate, t1) == MathPrice(rate, t2)
  {
  }

  /** With a non-negative rate, more time never costs less. */
  lemma PriceMonotone(rate: int, t1: int, t2: int)
    requires rate >= 0 && t1 <= t2
    ensures MathPrice(rate, t1) <= MathPrice(rate, t2)
  {
    var q1, q2 := t1 / 60, t2 / 60;
    assert q1 * 60 <= t1 && t2 < q2 * 60 + 60;
    assert q1 <= q2;
    MulMonotone(rate, q1, q2);
  }

  /** With non-negative inputs the price never exceeds the rate pro rata for the minutes. */
  lemma PriceAtMostProRata(rate: int, spent: int)
    requires rate >= 0 && spent >= 0
    ensures 0 <= 60 * MathPrice(rate, spent) <= rate * spent
  {
    var q := spent / 60;
    assert 0 <= q * 60 <= spent;
    MulMonotone(rate, q * 60, spent);
    MulMonotone(rate, 0, q);
    assert 60 * MathPrice(rate, spent) == rate * (q * 60);
  }

  lemma MulMonotone(a: int, b: int, c: int)
    requires a >= 0 && b <= c
    ensures a * b <= a * c
  {
    assert a * c - a * b == a * (c - b);
  }

  /** The literals the worked conversions are written with. */
  lemma SmallLiterals()
    ensures IsLiteral("1") && LiteralValue("1") == 1
    ensures IsLiteral("2") && LiteralValue("2") == 2
    ensures IsLiteral("30") && LiteralValue("30") == 30
    ensures AllDigits("05") && !IsLiteral("05")
  {
    assert "05"[0] == '0' && "05"[1] != '0';
  }

  /** Worked conversion: an hours-and-minutes estimate. */
  lemma ExampleHoursMinutes()
    ensures Minutes("PT1H30M") == Some(90)
  {
    SmallLiterals();
    assert "PT1H30M" == "PT" + "1" + "H" + "30" + "M";
    HoursAndMinutes("1", "30");
  }

  /** Worked conversion: a day weighs 8, not 1440. */
  lemma ExampleDaysHoursMinutes()
    ensures Minutes("P1DT1H1M") == Some(69)
  {
    SmallLiterals();
    assert "P1DT1H1M" == "P" + "1" + "DT" + "1" + "H" + "1" + "M";
    DaysHoursMinutes("1", "1", "1");
  }

  /** Worked conversion: a week weighs 40, not 10080. */
  lemma ExampleWeeks()
    ensures Minutes("P2W") == Some(80)
  {
    SmallLiterals();
    assert "P2W" == "P" + "2" + "W";
    WeeksOnly("2");
  }

  /** Worked conversion: weeks together with days raise. */
  lemma ExampleWeeksAndDays()
    ensures Minutes("PT1W1DT1H1M") == None
  {
    assert "PT1W1DT1H1M"[3] == 'W' && "PT1W1DT1H1M"[5] == 'D';
    WeeksAndDaysFail("PT1W1DT1H1M");
  }

  /** Worked conversion: whole days without a time part raise. */
  lemma ExampleDayOnly()
    ensures Minutes("P1D") == None
  {
    SmallLiterals();
    assert "P1D" == "P" + "1" + "D";
    DaysOnlyFail("1");
  }

  /** Worked conversion: a zero-padded number raises. */
  lemma ExampleLeadingZero()
    ensures Minutes("PT05M") == None
  {
    SmallLiterals();
    assert "PT05M" == "PT" + "05" + "M";
    MinutesOnly("05");
  }

  /** Worked price: 90 minutes at 60 per hour bill one hour. */
  lemma ExamplePrice()
    ensures MathPrice(60, 90) == 60
  {
    PriceWholeHours(60, 90, 1);
  }
}
