/**
 * Running a parsed query over the connectors' buffered events: keep the
 * events of the named streams, then those meeting every WHERE condition,
 * then those inside the SINCE/UNTIL window; count them, list their
 * streams sorted and without duplicates, and page through them.
 *
 * Timestamps are whole seconds. RFC 3339 reading is a parameter `rfc3339`
 * (text to seconds, or `None`), and so is the clock: its reading `now` and
 * the range of instants chrono's `DateTime<Utc>` holds.
 * Numbers are compared as integers; see README for what that leaves out.
 */
module QueryExecutor {
  import opened Wrappers
  import opened Text
  import opened JsonValues
  import opened QueryTypes
  import opened SeqOps

  // ---------------------------------------------------------------------------
  // FROM
  // ---------------------------------------------------------------------------

  /**
   * The stream filter: with no FROM list every event is kept; otherwise
   * some entry must occur inside the event's stream or connector id.
   */
  predicate InFrom(e: StreamEvent, from: seq<string>)
  {
    |from| == 0 || exists i :: 0 <= i < |from| && (Text.Contains(e.stream, from[i]) || Text.Contains(e.connectorId, from[i]))
  }

  /** An event whose stream is listed verbatim in FROM is kept. */
  lemma NamedStreamKept(e: StreamEvent, from: seq<string>, i: nat)
    requires i < |from| && from[i] == e.stream
    ensures InFrom(e, from)
  {
    assert [] + e.stream + [] == e.stream;
    ContainsEmbedded([], e.stream, []);
  }

  // ---------------------------------------------------------------------------
  // WHERE: field lookup and comparison
  // ---------------------------------------------------------------------------

  /** The names `extract_field` reads from the event itself. */
  predicate IsTopLevelField(field: string)
  {
    field == "id" || field == "connector_id" || field == "stream" || field == "sequence" || field == "timestamp"
  }

  /** The JSON Pointer `extract_field` builds for a payload path. */
  function PayloadPointer(field: string): (p: string)
    ensures |p| > 0 && p[0] == '/'
  {
    var path := match StripPrefix(field, "payload.") case Some(rest) => rest case None => field;
    if |path| > 0 && path[0] == '/' then path else "/" + ReplaceChar(path, '.', "/")
  }

  /**
   * `extract_field`: a top-level field of the event, else a metadata entry
   * (as a string), else the payload value at the field's pointer.
   */
  function ExtractField(e: StreamEvent, field: string): (r: Option<Json>)
    ensures field == "id" ==> r == Some(Str(e.id))
    ensures field == "connector_id" ==> r == Some(Str(e.connectorId))
    ensures field == "stream" ==> r == Some(Str(e.stream))
    ensures field == "sequence" ==> r == Some(Int(e.sequence))
    ensures field == "timestamp" ==> r == Some(Str(e.timestamp))
    ensures !IsTopLevelField(field) && field in e.metadata ==> r == Some(Str(e.metadata[field]))
    ensures !IsTopLevelField(field) && field !in e.metadata ==> r == Pointer(e.payload, PayloadPointer(field))
  {
    if field == "id" then Some(Str(e.id))
    else if field == "connector_id" then Some(Str(e.connectorId))
    else if field == "stream" then Some(Str(e.stream))
    else if field == "sequence" then Some(Int(e.sequence))
    else if field == "timestamp" then Some(Str(e.timestamp))
    else if field in e.metadata then Some(Str(e.metadata[field]))
    else Pointer(e.payload, PayloadPointer(field))
  }

  /**
   * `payload.key` and plain `key` both name the payload member `key`, when
   * the key has no `.`, `/` or `~` and neither spelling is taken by a
   * top-level field or a metadata entry.
   */
  lemma PayloadKeyLookup(e: StreamEvent, key: string)
    requires '.' !in key && '/' !in key && '~' !in key
    requires e.payload.Object?
    requires !IsTopLevelField(key) && key !in e.metadata && "payload." + key !in e.metadata
    ensures ExtractField(e, key) == Get(e.payload.fields, key)
    ensures ExtractField(e, "payload." + key) == Get(e.payload.fields, key)
  {
    var prefixed := "payload." + key;
    assert !IsTopLevelField(prefixed) by {
      assert prefixed[7] == '.';
    }
    assert StripPrefix(prefixed, "payload.") == Some(key) by {
      assert prefixed[..8] == "payload.";
    }
    assert !Text.StartsWith(key, "payload.") by {
      if 8 <= |key| {
        assert key[7] in key;
        assert key[..8][7] == key[7];
      }
    }
    if |key| > 0 {
      assert key[0] in key;
    }
    assert PayloadPointer(key) == "/" + key;
    assert PayloadPointer(prefixed) == "/" + key;
    PointerToField(e.payload.fields, key);
  }

  /** A field that names nothing makes its condition false. */
  lemma MissingFieldFails(e: StreamEvent, c: Condition)
    requires ExtractField(e, c.field).None?
    ensures !EvaluateCondition(e, c)
  {
  }

  /** `value_to_string`: a string's own text, any other value's JSON text. */
  function ValueToString(v: Json): (s: string)
    ensures v.Str? ==> s == v.s
  {
    if v.Str? then v.s else Serialize(v)
  }

  /**
   * The number a value stands for (`value_to_f64`), restricted to integers:
   * an integer, or a string that reads as one.
   */
  function Numeric(v: Json): (r: Option<int>)
    ensures v.Int? ==> r == Some(v.n)
    ensures !v.Int? && !v.Str? ==> r == None
  {
    match v
    case Int(n) => Some(n)
    case Str(s) => (match ParseI64(s) case Some(n) => Some(n as int) case None => None)
    case _ => None
  }

  /** `values_equal`: numerically when both sides are numbers, else by string form. */
  predicate ValuesEqual(a: Json, b: Json)
  {
    if Numeric(a).Some? && Numeric(b).Some? then Numeric(a).value == Numeric(b).value
    else ValueToString(a) == ValueToString(b)
  }

  /** `compare`: the event's value `a` against the condition's value `b`. */
  predicate Compare(a: Json, op: CompareOp, b: Json)
  {
    match op
    case Eq => ValuesEqual(a, b)
    case Neq => !ValuesEqual(a, b)
    case Gt => Numeric(a).Some? && Numeric(b).Some? && Numeric(a).value > Numeric(b).value
    case Gte => Numeric(a).Some? && Numeric(b).Some? && Numeric(a).value >= Numeric(b).value
    case Lt => Numeric(a).Some? && Numeric(b).Some? && Numeric(a).value < Numeric(b).value
    case Lte => Numeric(a).Some? && Numeric(b).Some? && Numeric(a).value <= Numeric(b).value
    case Contains => Text.Contains(ValueToString(a), ValueToString(b))
    case StartsWith => Text.StartsWith(ValueToString(a), ValueToString(b))
  }

  /** `!=` is the negation of `=`, and `=` is symmetric. */
  lemma EqualityLaws(a: Json, b: Json)
    ensures Compare(a, Neq, b) <==> !Compare(a, Eq, b)
    ensures Compare(a, Eq, b) <==> Compare(b, Eq, a)
  {
  }

  /**
   * `<`/`<=` are `>`/`>=` with the sides swapped, `>=` is `>` or numeric
   * equality, and an ordering needs two numbers.
   */
  lemma OrderingLaws(a: Json, b: Json)
    ensures Compare(a, Lt, b) <==> Compare(b, Gt, a)
    ensures Compare(a, Lte, b) <==> Compare(b, Gte, a)
    ensures Compare(a, Gte, b) <==> Compare(a, Gt, b) || (Numeric(a).Some? && Numeric(b).Some? && Compare(a, Eq, b))
    ensures Numeric(a).None? || Numeric(b).None? ==> !Compare(a, Gt, b) && !Compare(a, Gte, b) && !Compare(a, Lt, b) && !Compare(a, Lte, b)
  {
  }

  /** A value that starts with the other also contains it. */
  lemma PrefixIsSubstring(a: Json, b: Json)
    ensures Compare(a, StartsWith, b) ==> Compare(a, Contains, b)
  {
    if Compare(a, StartsWith, b) {
      StartsWithImpliesContains(ValueToString(a), ValueToString(b));
    }
  }

  /** Every string contains and starts with itself. */
  lemma TextOpsReflexive(a: Json)
    ensures Compare(a, Contains, a) && Compare(a, StartsWith, a)
  {
    var s := ValueToString(a);
    assert s[..|s|] == s;
    StartsWithImpliesContains(s, s);
  }

  /** `evaluate_condition`: the field must exist and compare as asked. */
  predicate EvaluateCondition(e: StreamEvent, c: Condition)
  {
    match ExtractField(e, c.field)
    case Some(v) => Compare(v, c.op, c.value)
    case None => false
  }

  /** `evaluate_conditions`: every condition holds (vacuously with none). */
  predicate EvaluateConditions(e: StreamEvent, conditions: seq<Condition>)
  {
    forall i :: 0 <= i < |conditions| ==> EvaluateCondition(e, conditions[i])
  }

  /** Conditions join like AND: one list passes iff both of its halves pass. */
  lemma ConditionsConjoin(e: StreamEvent, a: seq<Condition>, b: seq<Condition>)
    ensures EvaluateConditions(e, a + b) <==> EvaluateConditions(e, a) && EvaluateConditions(e, b)
  {
    if EvaluateConditions(e, a) && EvaluateConditions(e, b) {
      forall i | 0 <= i < |a + b|
        ensures EvaluateCondition(e, (a + b)[i])
      {
        if i >= |a| {
          assert (a + b)[i] == b[i - |a|];
        }
      }
    }
    if EvaluateConditions(e, a + b) {
      forall i | 0 <= i < |a|
        ensures EvaluateCondition(e, a[i])
      {
        assert (a + b)[i] == a[i];
      }
      forall i | 0 <= i < |b|
        ensures EvaluateCondition(e, b[i])
      {
        assert (a + b)[|a| + i] == b[i];
      }
    }
  }

  // ---------------------------------------------------------------------------
  // SINCE / UNTIL
  // ---------------------------------------------------------------------------

  /** Seconds in one unit of a relative time: `s`, `m`, `h` or `d`. */
  function UnitSeconds(unit: char): (r: Option<int>)
    ensures r.Some? <==> unit in "smhd"
  {
    if unit == 's' then Some(1)
    else if unit == 'm' then Some(60)
    else if unit == 'h' then Some(3600)
    else if unit == 'd' then Some(86400)
    else None
  }

  /**
   * The largest whole number of seconds a chrono `Duration` holds: it
   * counts at most `i64::MAX` milliseconds either way. `Duration::seconds`
   * panics beyond it, and so do `minutes`, `hours` and `days`, whose
   * `checked_mul` by the unit only fails on amounts that are beyond it too.
   */
  const MAX_DURATION_SECS: int := 9_223_372_036_854_775

  /** The clock of `execute`: the reading `Utc::now()`, and the earliest and latest instant a `DateTime<Utc>` holds. */
  datatype Clock = Clock(now: int, earliest: int, latest: int)

  /** The ways `parse_time_expr` panics instead of returning. */
  datatype TimePanic =
    | NotCharBoundary     // `split_at(len - 1)` falls inside a last character of more than one byte
    | DurationOutOfRange  // the amount of seconds is more than a `Duration` holds
    | InstantOutOfRange   // `now - duration` is outside the range of `DateTime<Utc>`

  /** A character of one byte in UTF-8. */
  predicate IsAscii(c: char)
  {
    c as int < 0x80
  }

  /**
   * `parse_time_expr`: empty text is no bound; an RFC 3339 time is that
   * time; otherwise the text is split before its last byte into an `i64`
   * and a unit, and `<n><unit>` is that long before `now`. The split, the
   * `Duration` and the subtraction can each panic.
   */
  function ParseTimeExpr(raw: string, clock: Clock, rfc3339: string -> Option<int>): (r: Result<Option<int>, TimePanic>)
    ensures |Trim(raw)| == 0 ==> r == Ok(None)
    ensures |Trim(raw)| > 0 && rfc3339(Trim(raw)).Some? ==> r == Ok(rfc3339(Trim(raw)))
    ensures r == Err(NotCharBoundary) <==>
      |Trim(raw)| > 0 && rfc3339(Trim(raw)).None? && !IsAscii(Trim(raw)[|Trim(raw)| - 1])
    ensures r.Ok? && r.value.Some? && rfc3339(Trim(raw)).None? ==> clock.earliest <= r.value.value <= clock.latest
  {
    var value := Trim(raw);
    if |value| == 0 then Ok(None)
    else if rfc3339(value).Some? then Ok(rfc3339(value))
    else if !IsAscii(value[|value| - 1]) then Err(NotCharBoundary)
    else
      var number, unit := value[..|value| - 1], value[|value| - 1];
      match ParseI64(number)
      case None => Ok(None)
      case Some(amount) =>
        match UnitSeconds(unit)
        case None => Ok(None)
        case Some(seconds) =>
          var span := amount * seconds;
          if span < -MAX_DURATION_SECS || MAX_DURATION_SECS < span then Err(DurationOutOfRange)
          else if clock.now - span < clock.earliest || clock.latest < clock.now - span then Err(InstantOutOfRange)
          else Ok(Some(clock.now - span))
  }

  /**
   * `<n><unit>` that is not itself an RFC 3339 time means `n` units before
   * `now` when chrono can hold that duration and that instant, and panics
   * otherwise.
   */
  lemma RelativeTime(n: i64, unit: char, clock: Clock, rfc3339: string -> Option<int>)
    requires unit in "smhd"
    requires rfc3339(SignedDecimal(n) + [unit]).None?
    ensures var span := n * UnitSeconds(unit).value;
      var r := ParseTimeExpr(SignedDecimal(n) + [unit], clock, rfc3339);
      && (-MAX_DURATION_SECS <= span <= MAX_DURATION_SECS && clock.earliest <= clock.now - span <= clock.latest ==>
            r == Ok(Some(clock.now - span)))
      && (span < -MAX_DURATION_SECS || MAX_DURATION_SECS < span ==> r == Err(DurationOutOfRange))
      && (-MAX_DURATION_SECS <= span <= MAX_DURATION_SECS && !(clock.earliest <= clock.now - span <= clock.latest) ==>
            r == Err(InstantOutOfRange))
  {
    var text := SignedDecimal(n) + [unit];
    RelativeTextTrims(n, unit);
    ParseI64Decimal(n);
    var seconds := UnitSeconds(unit).value;
    assert IsAscii(Trim(text)[|text| - 1]);
    assert ParseI64(Trim(text)[..|text| - 1]) == Some(n);
    assert UnitSeconds(Trim(text)[|text| - 1]) == Some(seconds);
  }

  /** `<n><unit>` is already trimmed, and cutting off its last character leaves the number. */
  lemma RelativeTextTrims(n: i64, unit: char)
    requires unit in "smhd"
    ensures Trim(SignedDecimal(n) + [unit]) == SignedDecimal(n) + [unit]
    ensures (SignedDecimal(n) + [unit])[..|SignedDecimal(n)|] == SignedDecimal(n)
  {
    var digits := SignedDecimal(n);
    var text := digits + [unit];
    forall k | 0 <= k < |text|
      ensures !IsWhitespace(text[k])
    {
      if k < |digits| {
        if n < 0 && k > 0 {
          assert digits[k] == Decimal(-(n as int))[k - 1];
          assert IsDigit(digits[k]);
        } else if n >= 0 {
          assert IsDigit(Decimal(n)[k]);
        }
      }
    }
    NoWhitespaceTrim(text);
  }

  /**
   * A trailing character that is not a unit makes the expression
   * unreadable, unless it takes more than one byte, where the split panics.
   */
  lemma UnknownUnit(raw: string, clock: Clock, rfc3339: string -> Option<int>)
    requires |Trim(raw)| > 0 && rfc3339(Trim(raw)).None?
    requires Trim(raw)[|Trim(raw)| - 1] !in "smhd"
    ensures ParseTimeExpr(raw, clock, rfc3339) ==
      if IsAscii(Trim(raw)[|Trim(raw)| - 1]) then Ok(None) else Err(NotCharBoundary)
  {
  }

  /** Text with no whitespace at either end trims to itself. */
  lemma NoWhitespaceTrim(s: string)
    requires forall k :: 0 <= k < |s| ==> !IsWhitespace(s[k])
    ensures Trim(s) == s
  {
    if |s| > 0 {
      TrimOfTrimmed(s);
    }
  }

  /**
   * The time window: with neither bound readable every event passes;
   * otherwise the event's own timestamp must read and lie inside.
   */
  predicate InWindow(e: StreamEvent, since: Option<int>, until: Option<int>, rfc3339: string -> Option<int>)
  {
    if since.None? && until.None? then true
    else
      match rfc3339(e.timestamp)
      case None => false
      case Some(ts) => (since.None? || ts >= since.value) && (until.None? || ts <= until.value)
  }

  /** With a bound in force, an event whose timestamp does not read is excluded. */
  lemma UnreadableTimestampExcluded(e: StreamEvent, since: Option<int>, until: Option<int>, rfc3339: string -> Option<int>)
    requires since.Some? || until.Some?
    requires rfc3339(e.timestamp).None?
    ensures !InWindow(e, since, until, rfc3339)
  {
  }

  // ---------------------------------------------------------------------------
  // The pipeline
  // ---------------------------------------------------------------------------

  /** The bound a SINCE/UNTIL clause sets (`and_then(parse_time_expr)`): none, an instant, or the panic. */
  function Bound(clause: Option<string>, clock: Clock, rfc3339: string -> Option<int>): (r: Result<Option<int>, TimePanic>)
    ensures clause.None? ==> r == Ok(None)
  {
    match clause
    case None => Ok(None)
    case Some(text) => ParseTimeExpr(text, clock, rfc3339)
  }

  /** The events that pass all three filters, in buffer order, for the bounds `since` and `until`. */
  function Matching(q: Query, events: seq<StreamEvent>, since: Option<int>, until: Option<int>,
                    rfc3339: string -> Option<int>): (r: seq<StreamEvent>)
    ensures |r| <= |events|
  {
    var byStream := if |q.from| == 0 then events else Filter(e => InFrom(e, q.from), events);
    var byCondition := Filter(e => EvaluateConditions(e, q.conditions), byStream);
    if since.Some? || until.Some? then Filter(e => InWindow(e, since, until, rfc3339), byCondition)
    else byCondition
  }

  /** An event matches iff it is buffered and passes the stream, condition and time filters. */
  lemma MatchingMembers(q: Query, events: seq<StreamEvent>, since: Option<int>, until: Option<int>,
                        rfc3339: string -> Option<int>, e: StreamEvent)
    ensures e in Matching(q, events, since, until, rfc3339) <==>
              e in events && InFrom(e, q.from) && EvaluateConditions(e, q.conditions)
              && InWindow(e, since, until, rfc3339)
  {
    var byStream := if |q.from| == 0 then events else Filter(e => InFrom(e, q.from), events);
    FilterMembers(e => InFrom(e, q.from), events);
    var byCondition := Filter(e => EvaluateConditions(e, q.conditions), byStream);
    FilterMembers(e => EvaluateConditions(e, q.conditions), byStream);
    FilterMembers(e => InWindow(e, since, until, rfc3339), byCondition);
  }

  /** A query with no FROM and no WHERE, and no bound in force, matches every event. */
  lemma OpenQueryMatchesAll(q: Query, events: seq<StreamEvent>, rfc3339: string -> Option<int>)
    requires q.from == [] && q.conditions == []
    ensures Matching(q, events, None, None, rfc3339) == events
  {
    FilterAll(e => EvaluateConditions(e, q.conditions), events);
  }

  // ---------------------------------------------------------------------------
  // Streams searched: sort and deduplicate
  // ---------------------------------------------------------------------------

  /** Strictly increasing, so sorted and without duplicates. */
  predicate StrictlySorted(s: seq<string>)
  {
    forall i, j :: 0 <= i < j < |s| ==> StrLess(s[i], s[j])
  }

  lemma {:induction false} StrLessTransitive(a: string, b: string, c: string)
    requires StrLess(a, b) && StrLess(b, c)
    ensures StrLess(a, c)
  {
    if |a| > 0 && |b| > 0 && |c| > 0 && a[0] == b[0] == c[0] {
      StrLessTransitive(a[1..], b[1..], c[1..]);
    }
  }

  lemma {:induction false} StrLessTotal(a: string, b: string)
    requires a != b
    ensures StrLess(a, b) || StrLess(b, a)
  {
    if |a| > 0 && |b| > 0 && a[0] == b[0] {
      assert a == [a[0]] + a[1..] && b == [b[0]] + b[1..];
      StrLessTotal(a[1..], b[1..]);
    }
  }

  lemma {:induction false} StrLessAsymmetric(a: string, b: string)
    requires StrLess(a, b)
    ensures !StrLess(b, a)
  {
    if |a| > 0 && |b| > 0 && a[0] == b[0] {
      StrLessAsymmetric(a[1..], b[1..]);
    }
  }

  /** Puts `x` into its place in a strictly sorted list, unless it is there already. */
  function Insert(s: seq<string>, x: string): (r: seq<string>)
  {
    if |s| == 0 then [x]
    else if x == s[0] then s
    else if StrLess(x, s[0]) then [x] + s
    else [s[0]] + Insert(s[1..], x)
  }

  /** Inserting keeps the list strictly sorted and adds exactly `x`. */
  lemma {:induction false} InsertSpec(s: seq<string>, x: string)
    requires StrictlySorted(s)
    ensures StrictlySorted(Insert(s, x))
    ensures forall y :: y in Insert(s, x) <==> y in s || y == x
  {
    if |s| == 0 {
    } else if x == s[0] {
    } else if StrLess(x, s[0]) {
      var r := [x] + s;
      forall i, j | 0 <= i < j < |r|
        ensures StrLess(r[i], r[j])
      {
        if i == 0 && j > 1 {
          StrLessTransitive(x, s[0], s[j - 1]);
        }
      }
    } else {
      StrLessTotal(x, s[0]);
      InsertSpec(s[1..], x);
      var rest := Insert(s[1..], x);
      var r := [s[0]] + rest;
      forall i, j | 0 <= i < j < |r|
        ensures StrLess(r[i], r[j])
      {
        if i == 0 {
          assert r[j] in rest;
          assert r[j] in s[1..] || r[j] == x;
          if r[j] in s[1..] {
            var k :| 0 <= k < |s[1..]| && s[1..][k] == r[j];
            assert s[k + 1] == r[j];
          }
        } else {
          assert r[i] == rest[i - 1] && r[j] == rest[j - 1];
        }
      }
      assert s == [s[0]] + s[1..];
    }
  }

  /** The streams of `events`, sorted and without duplicates, as a value. */
  function SortedStreams(events: seq<StreamEvent>): seq<string>
  {
    if |events| == 0 then [] else Insert(SortedStreams(events[..|events| - 1]), events[|events| - 1].stream)
  }

  /** `SortedStreams` is strictly sorted and holds exactly the events' streams. */
  lemma {:induction false} SortedStreamsSpec(events: seq<StreamEvent>)
    ensures StrictlySorted(SortedStreams(events))
    ensures forall s :: s in SortedStreams(events) <==> exists i :: 0 <= i < |events| && events[i].stream == s
  {
    if |events| > 0 {
      var init := events[..|events| - 1];
      SortedStreamsSpec(init);
      InsertSpec(SortedStreams(init), events[|events| - 1].stream);
      forall s
        ensures s in SortedStreams(events) <==> exists i :: 0 <= i < |events| && events[i].stream == s
      {
        if s in SortedStreams(init) {
          var i :| 0 <= i < |init| && init[i].stream == s;
          assert events[i].stream == s;
        }
        if exists i :: 0 <= i < |events| && events[i].stream == s {
          var i :| 0 <= i < |events| && events[i].stream == s;
          if i < |init| {
            assert init[i].stream == s;
          }
        }
      }
    }
  }

  /**
   * `streams_searched`: collect every stream, `sort`, then `dedup`,
   * done as one insertion pass.
   */
  method CollectStreams(events: seq<StreamEvent>) returns (streams: seq<string>)
    ensures streams == SortedStreams(events)
  {
    streams := [];
    for i := 0 to |events|
      invariant streams == SortedStreams(events[..i])
    {
      assert events[..i + 1][..i] == events[..i];
      streams := Insert(streams, events[i].stream);
    }
    assert events[..|events|] == events;
  }

  /**
   * `execute`: the SINCE bound is read, then the UNTIL bound, either of
   * which can panic; otherwise the matching events paged by `offset` and
   * `limit`, their count before paging, and their streams sorted without
   * duplicates.
   */
  method Execute(q: Query, events: seq<StreamEvent>, clock: Clock, rfc3339: string -> Option<int>)
    returns (r: Result<QueryResult, TimePanic>)
    ensures Bound(q.since, clock, rfc3339).Err? ==> r == Err(Bound(q.since, clock, rfc3339).error)
    ensures Bound(q.since, clock, rfc3339).Ok? && Bound(q.until, clock, rfc3339).Err? ==>
      r == Err(Bound(q.until, clock, rfc3339).error)
    ensures r.Ok? <==> Bound(q.since, clock, rfc3339).Ok? && Bound(q.until, clock, rfc3339).Ok?
    ensures r.Ok? ==>
      var m := Matching(q, events, Bound(q.since, clock, rfc3339).value, Bound(q.until, clock, rfc3339).value, rfc3339);
      r.value.total == |m| && r.value.events == Page(m, q.offset, q.limit) && r.value.streamsSearched == SortedStreams(m)
  {
    var since := Bound(q.since, clock, rfc3339);
    if since.Err? {
      return Err(since.error);
    }
    var until := Bound(q.until, clock, rfc3339);
    if until.Err? {
      return Err(until.error);
    }
    var matching := Matching(q, events, since.value, until.value, rfc3339);
    var streams := CollectStreams(matching);
    r := Ok(QueryResult(Page(matching, q.offset, q.limit), |matching|, streams));
  }

  /**
   * What a result promises: at most `limit` events, each one a match in
   * buffer order starting at `offset`, and the streams list sorted,
   * duplicate-free and naming exactly the streams of the matches.
   */
  lemma ExecuteResult(q: Query, events: seq<StreamEvent>, since: Option<int>, until: Option<int>,
                      rfc3339: string -> Option<int>)
    ensures var m := Matching(q, events, since, until, rfc3339);
            var page := Page(m, q.offset, q.limit);
            |page| <= q.limit && |page| <= |m| <= |events|
            && (forall i :: 0 <= i < |page| ==> page[i] == m[q.offset + i])
            && StrictlySorted(SortedStreams(m))
            && (forall s :: s in SortedStreams(m) <==> exists i :: 0 <= i < |m| && m[i].stream == s)
  {
    var m := Matching(q, events, since, until, rfc3339);
    SortedStreamsSpec(m);
  }

}
