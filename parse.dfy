/** Parse: laying the whitespace-separated fields of a cron line out over
    the seven fields of an expression (cronexpr.go). */
module CronParse {
  import opened Wrappers
  import opened CronExpression

  /** The seven fields of a cron expression, in the order Parse consumes them. */
  datatype Field = Seconds | Minutes | Hours | DaysOfMonth | Months | DaysOfWeek | Years

  /** Position of a field in the seven-field layout. */
  function Order(f: Field): (r: nat)
    ensures r <= 6
  {
    match f
    case Seconds => 0
    case Minutes => 1
    case Hours => 2
    case DaysOfMonth => 3
    case Months => 4
    case DaysOfWeek => 5
    case Years => 6
  }

  /** The number of fields Parse looks at: fields beyond the seventh are ignored. */
  function FieldCount(fields: seq<string>): (n: nat)
    requires |fields| >= 5
    ensures 5 <= n <= 7 && n <= |fields|
    ensures |fields| <= 7 ==> n == |fields|
    ensures |fields| > 7 ==> n == 7
  {
    if |fields| > 7 then 7 else |fields|
  }

  /** Which of the `fieldCount` fields holds field `f`, if any: the seconds
      field only exists in a seven-field line, and the year field is the one
      left after the day-of-week field, if any. */
  function FieldPosition(f: Field, fieldCount: nat): (r: Option<nat>)
    requires 5 <= fieldCount <= 7
    ensures r.Some? ==> r.value < fieldCount
    ensures f == Seconds ==> (r.Some? <==> fieldCount == 7)
    ensures f == Years ==> (r.Some? <==> fieldCount >= 6) && (r.Some? ==> r.value == fieldCount - 1)
    ensures f != Seconds && f != Years ==> r.Some?
    ensures r.Some? ==> r.value + (if fieldCount == 7 then 0 else 1) == Order(f)
  {
    var shift := if fieldCount == 7 then 1 else 0;
    match f
    case Seconds => if fieldCount == 7 then Some(0) else None
    case Years => if shift + 5 < fieldCount then Some(shift + 5) else None
    case _ => Some(Order(f) - 1 + shift)
  }

  /** The layout is one-to-one, keeps the field order, and uses every one of
      the `fieldCount` fields. */
  lemma FieldLayout(fieldCount: nat)
    requires 5 <= fieldCount <= 7
    ensures forall f, g :: FieldPosition(f, fieldCount).Some? && FieldPosition(f, fieldCount) == FieldPosition(g, fieldCount) ==> f == g
    ensures forall f, g :: FieldPosition(f, fieldCount).Some? && FieldPosition(g, fieldCount).Some? && Order(f) < Order(g) ==>
      FieldPosition(f, fieldCount).value < FieldPosition(g, fieldCount).value
    ensures forall i :: 0 <= i < fieldCount ==> exists f :: FieldPosition(f, fieldCount) == Some(i)
  {
    forall f, g | FieldPosition(f, fieldCount).Some? && FieldPosition(f, fieldCount) == FieldPosition(g, fieldCount)
      ensures f == g
    {
      assert Order(f) == Order(g);
    }
    forall i | 0 <= i < fieldCount
      ensures exists f :: FieldPosition(f, fieldCount) == Some(i)
    {
      var shift := if fieldCount == 7 then 1 else 0;
      if i < shift {
        assert FieldPosition(Seconds, fieldCount) == Some(i);
      } else if i - shift == 0 {
        assert FieldPosition(Minutes, fieldCount) == Some(i);
      } else if i - shift == 1 {
        assert FieldPosition(Hours, fieldCount) == Some(i);
      } else if i - shift == 2 {
        assert FieldPosition(DaysOfMonth, fieldCount) == Some(i);
      } else if i - shift == 3 {
        assert FieldPosition(Months, fieldCount) == Some(i);
      } else if i - shift == 4 {
        assert FieldPosition(DaysOfWeek, fieldCount) == Some(i);
      } else {
        assert FieldPosition(Years, fieldCount) == Some(i);
      }
    }
  }

  /** The field handlers and the defaults Parse relies on. Their bodies are
      not part of this model: each handler turns one field's text into the
      compiled field or an error, and what is assumed of the lists they
      produce is carried by the list types. */
  datatype Handlers = Handlers(
    second: string -> Result<SecondList, string>,
    minute: string -> Result<MinuteList, string>,
    hour: string -> Result<HourList, string>,
    dom: string -> Result<DomSpec, string>,
    month: string -> Result<MonthList, string>,
    dow: string -> Result<DowSpec, string>,
    year: string -> Result<YearList, string>,
    defaultYears: YearList,
    resolveDays: ValidDayResolver)

  /** The error the handler of field `f` reports on `text`, if any. */
  function HandlerError(h: Handlers, f: Field, text: string): Option<string> {
    var e := match f
      case Seconds => if h.second(text).Err? then Some(h.second(text).error) else None
      case Minutes => if h.minute(text).Err? then Some(h.minute(text).error) else None
      case Hours => if h.hour(text).Err? then Some(h.hour(text).error) else None
      case DaysOfMonth => if h.dom(text).Err? then Some(h.dom(text).error) else None
      case Months => if h.month(text).Err? then Some(h.month(text).error) else None
      case DaysOfWeek => if h.dow(text).Err? then Some(h.dow(text).error) else None
      case Years => if h.year(text).Err? then Some(h.year(text).error) else None;
    e
  }

  /** Field `f` is present in the line split into `fields`. */
  predicate Present(f: Field, fields: seq<string>)
    requires |fields| >= 5
  {
    FieldPosition(f, FieldCount(fields)).Some?
  }

  /** The text of field `f` in the line split into `fields`. */
  function TextOf(f: Field, fields: seq<string>): string
    requires |fields| >= 5 && Present(f, fields)
  {
    fields[FieldPosition(f, FieldCount(fields)).value]
  }

  /** Field `f` is present in `fields` and its handler rejects it. */
  predicate Rejects(h: Handlers, f: Field, fields: seq<string>)
    requires |fields| >= 5
  {
    Present(f, fields) && HandlerError(h, f, TextOf(f, fields)).Some?
  }

  /** The error the handler of a rejected field reports. */
  function ErrorOf(h: Handlers, f: Field, fields: seq<string>): string
    requires |fields| >= 5 && Rejects(h, f, fields)
  {
    HandlerError(h, f, TextOf(f, fields)).value
  }

  /** The first field, in field order, that is present in `fields` and
      that its handler rejects. */
  function FirstRejected(h: Handlers, fields: seq<string>): (r: Option<Field>)
    requires |fields| >= 5
    ensures r.Some? ==> Rejects(h, r.value, fields)
    ensures r.Some? ==> forall g :: Order(g) < Order(r.value) ==> !Rejects(h, g, fields)
    ensures r.None? <==> forall f :: !Rejects(h, f, fields)
  {
    if Rejects(h, Seconds, fields) then Some(Seconds)
    else if Rejects(h, Minutes, fields) then Some(Minutes)
    else if Rejects(h, Hours, fields) then Some(Hours)
    else if Rejects(h, DaysOfMonth, fields) then Some(DaysOfMonth)
    else if Rejects(h, Months, fields) then Some(Months)
    else if Rejects(h, DaysOfWeek, fields) then Some(DaysOfWeek)
    else if Rejects(h, Years, fields) then Some(Years)
    else None
  }

  /** Parse, from the split fields of the (alias-normalised) line: fewer than
      five fields are an error; beyond the seventh they are ignored; with
      seven fields the first is the seconds field, otherwise the seconds
      list is [0]; the field after the day-of-week field, if any, is the
      year, otherwise the default year list applies. The handlers run in
      field order and the first error is returned. */
  method Parse(fields: seq<string>, h: Handlers) returns (r: Result<Expression, string>)
    ensures |fields| < 5 ==> r == Err("missing field(s)")
    ensures |fields| >= 5 ==> (r.Err? <==> FirstRejected(h, fields).Some?)
    ensures |fields| >= 5 && r.Err? ==> r.error == ErrorOf(h, FirstRejected(h, fields).value, fields)
    ensures r.Ok? ==> |fields| >= 5 && fresh(r.value) && Parsed(r.value, fields, h)
  {
    var fieldCount := |fields|;
    if fieldCount < 5 {
      return Err("missing field(s)");
    }
    // ignore fields beyond the seventh
    if fieldCount > 7 {
      fieldCount := 7;
    }
    var field := 0;
    // second field (optional)
    var secondList: SecondList;
    if fieldCount == 7 {
      assert field == FieldPosition(Seconds, FieldCount(fields)).value;
      var res := h.second(fields[field]);
      if res.Err? {
        assert Rejects(h, Seconds, fields);
        return Err(res.error);
      }
      secondList := res.value;
      field := field + 1;
    } else {
      secondList := [0];
    }
    // minute field
    assert field == FieldPosition(Minutes, FieldCount(fields)).value;
    var minutes := h.minute(fields[field]);
    if minutes.Err? {
      assert Rejects(h, Minutes, fields);
      return Err(minutes.error);
    }
    field := field + 1;
    // hour field
    assert field == FieldPosition(Hours, FieldCount(fields)).value;
    var hours := h.hour(fields[field]);
    if hours.Err? {
      assert Rejects(h, Hours, fields);
      return Err(hours.error);
    }
    field := field + 1;
    // day of month field
    assert field == FieldPosition(DaysOfMonth, FieldCount(fields)).value;
    var dom := h.dom(fields[field]);
    if dom.Err? {
      assert Rejects(h, DaysOfMonth, fields);
      return Err(dom.error);
    }
    field := field + 1;
    // month field
    assert field == FieldPosition(Months, FieldCount(fields)).value;
    var months := h.month(fields[field]);
    if months.Err? {
      assert Rejects(h, Months, fields);
      return Err(months.error);
    }
    field := field + 1;
    // day of week field
    assert field == FieldPosition(DaysOfWeek, FieldCount(fields)).value;
    var dow := h.dow(fields[field]);
    if dow.Err? {
      assert Rejects(h, DaysOfWeek, fields);
      return Err(dow.error);
    }
    field := field + 1;
    // year field
    var yearList: YearList;
    if field < fieldCount {
      assert field == FieldPosition(Years, FieldCount(fields)).value;
      var years := h.year(fields[field]);
      if years.Err? {
        assert Rejects(h, Years, fields);
        return Err(years.error);
      }
      yearList := years.value;
    } else {
      yearList := h.defaultYears;
    }
    var expr := new Expression(secondList, minutes.value, hours.value, dom.value, months.value,
                               dow.value, yearList, h.resolveDays);
    return Ok(expr);
  }

  /** `e` holds what the handlers make of `fields`, laid out by FieldPosition:
      the seconds list is [0] and the year list the default one when the
      line has no such field, and the day cache is empty. */
  ghost predicate Parsed(e: Expression, fields: seq<string>, h: Handlers)
    requires |fields| >= 5
    reads e
  {
    var n := FieldCount(fields);
    (if n == 7 then h.second(TextOf(Seconds, fields)) == Ok(e.secondList) else e.secondList == [0])
    && h.minute(TextOf(Minutes, fields)) == Ok(e.minuteList)
    && h.hour(TextOf(Hours, fields)) == Ok(e.hourList)
    && h.dom(TextOf(DaysOfMonth, fields)) == Ok(e.daysOfMonth)
    && h.month(TextOf(Months, fields)) == Ok(e.monthList)
    && h.dow(TextOf(DaysOfWeek, fields)) == Ok(e.daysOfWeek)
    && (if n >= 6 then h.year(TextOf(Years, fields)) == Ok(e.yearList) else e.yearList == h.defaultYears)
    && e.resolveDays == h.resolveDays
    && e.actualDaysOfMonthList == []
  }
}
