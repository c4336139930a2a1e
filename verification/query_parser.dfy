/**
 * The query language parser: `SELECT * FROM a, b WHERE f > 1 AND g = "x"
 * SINCE 5m UNTIL ... LIMIT n OFFSET m`. Each clause is found by searching
 * the upper-cased query for its keyword and runs up to the next keyword;
 * only a WHERE clause with a part that has no operator makes parsing fail.
 *
 * Upper-casing is ASCII-only here, so positions in the upper-cased text
 * are positions in the original text.
 */
module QueryParser {
  import opened Wrappers
  import opened Text
  import opened JsonValues
  import opened QueryTypes
  import SeqOps

  /** The words that end a clause, in the order they are tried. */
  const KEYWORDS: seq<string> := ["WHERE ", "FROM ", "SINCE ", "UNTIL ", "LIMIT ", "OFFSET ", "ORDER "]

  /** The separator of WHERE conditions, matched case-insensitively. */
  const AND: string := " AND "

  const DEFAULT_LIMIT: nat := 100

  // ---------------------------------------------------------------------------
  // Clause boundaries
  // ---------------------------------------------------------------------------

  /**
   * The earliest index at which one of `kws` occurs in `upper`, or `bound`
   * when none occurs before it.
   */
  function Earliest(upper: string, kws: seq<string>, bound: nat): (r: nat)
    ensures r <= bound
    decreases |kws|
  {
    if |kws| == 0 then bound
    else
      var rest := Earliest(upper, kws[..|kws| - 1], bound);
      match Find(upper, kws[|kws| - 1])
      case Some(p) => if p < rest then p else rest
      case None => rest
  }

  /** `Earliest` is the first position where a keyword occurs, if one occurs before `bound`. */
  lemma {:induction false} EarliestIsFirst(upper: string, kws: seq<string>, bound: nat)
    ensures forall i, j :: 0 <= i < |kws| && 0 <= j < Earliest(upper, kws, bound) ==> !OccursAt(upper, kws[i], j)
    ensures Earliest(upper, kws, bound) < bound ==>
              exists i :: 0 <= i < |kws| && OccursAt(upper, kws[i], Earliest(upper, kws, bound))
    decreases |kws|
  {
    if |kws| > 0 {
      var init := kws[..|kws| - 1];
      EarliestIsFirst(upper, init, bound);
      FindSpec(upper, kws[|kws| - 1]);
      assert forall i :: 0 <= i < |init| ==> init[i] == kws[i];
    }
  }

  /**
   * Where a clause that starts at the beginning of `s` ends: at the first
   * keyword (in any case), or at the end of `s`.
   */
  function KeywordEnd(s: string): (r: nat)
    ensures r <= |s|
  {
    Earliest(ToUpper(s), KEYWORDS, |s|)
  }

  /** `find_keyword_pos`: the minimum over the keywords' first occurrences. */
  method FindKeywordPos(s: string) returns (min: nat)
    ensures min == KeywordEnd(s)
  {
    var upper := ToUpper(s);
    min := |s|;
    for k := 0 to |KEYWORDS|
      invariant min == Earliest(upper, KEYWORDS[..k], |s|)
    {
      assert KEYWORDS[..k + 1][..k] == KEYWORDS[..k];
      match Find(upper, KEYWORDS[k]) {
        case Some(pos) =>
          if pos < min {
            min := pos;
          }
        case None =>
      }
    }
    assert KEYWORDS[..|KEYWORDS|] == KEYWORDS;
  }

  /**
   * The trimmed text of the clause that `kw` introduces in the (trimmed)
   * query `input`: from just after the first case-insensitive occurrence of
   * `kw` up to the next keyword; `None` when `kw` does not occur.
   */
  function Clause(input: string, kw: string): (r: Option<string>)
    ensures r.None? <==> !Text.Contains(ToUpper(input), kw)
  {
    match Find(ToUpper(input), kw)
    case None => None
    case Some(p) => Some(ClauseText(input[p + |kw|..]))
  }

  /** The text after a keyword up to the next keyword, trimmed. */
  function ClauseText(after: string): string
  {
    Trim(after[..KeywordEnd(after)])
  }

  /** The extraction step every clause of `parse` repeats. */
  method ExtractClause(input: string, kw: string) returns (r: Option<string>)
    ensures r == Clause(input, kw)
  {
    var upper := ToUpper(input);
    match Find(upper, kw)
    case None =>
      r := None;
    case Some(p) =>
      var text := ExtractClauseText(input[p + |kw|..]);
      r := Some(text);
  }

  /** The clause text after its keyword: up to the next keyword, trimmed. */
  method ExtractClauseText(after: string) returns (text: string)
    ensures text == ClauseText(after)
  {
    var end := FindKeywordPos(after);
    text := Trim(after[..end]);
  }

  /** A clause never contains a keyword: it stops at the first one. */
  lemma ClauseHasNoKeyword(input: string, kw: string, i: nat)
    requires Clause(input, kw).Some? && i < |KEYWORDS|
    ensures !Text.Contains(ToUpper(Clause(input, kw).value), KEYWORDS[i])
  {
    var p := Find(ToUpper(input), kw).value;
    var after := input[p + |kw|..];
    var e := KeywordEnd(after);
    var c := Trim(after[..e]);
    var w := KEYWORDS[i];
    assert Clause(input, kw).value == ClauseText(after) == c;
    var l, m := TrimmedPrefixAt(after, e);
    ToUpperSlice(after, l, m);
    NoKeywordBeforeEnd(after, i, l, m);
    assert ToUpper(c) == ToUpper(after)[l..m];
  }

  /** No keyword occurs in the part of `s` before the first keyword. */
  lemma NoKeywordBeforeEnd(s: string, i: nat, a: nat, b: nat)
    requires i < |KEYWORDS| && a <= b <= KeywordEnd(s)
    ensures !Text.Contains(ToUpper(s)[a..b], KEYWORDS[i])
  {
    EarliestIsFirst(ToUpper(s), KEYWORDS, |s|);
    NoneInSlice(ToUpper(s), KEYWORDS[i], a, b, KeywordEnd(s));
  }

  /** A pattern that does not occur before `bound` does not occur in a slice that ends by then. */
  lemma NoneInSlice(s: string, pat: string, a: nat, b: nat, bound: nat)
    requires a <= b <= bound <= |s| && |pat| > 0
    requires forall j :: 0 <= j < bound ==> !OccursAt(s, pat, j)
    ensures !Text.Contains(s[a..b], pat)
  {
    FindSpec(s[a..b], pat);
    forall j | 0 <= j <= b - a
      ensures !OccursAt(s[a..b], pat, j)
    {
      OccursInSlice(s, pat, a, b, j);
    }
  }

  /** The trimmed prefix `s[..e]` is the slice of `s` that starts after its leading whitespace. */
  lemma TrimmedPrefixAt(s: string, e: nat) returns (l: nat, m: nat)
    requires e <= |s|
    ensures l <= m <= e && Trim(s[..e]) == s[l..m]
  {
    var body := s[..e];
    l := LeadingWs(body);
    var c := Trim(body);
    m := l + |c|;
    assert c == body[l..m];
    assert body[l..m] == s[l..m];
  }

  // ---------------------------------------------------------------------------
  // FROM
  // ---------------------------------------------------------------------------

  /** Each piece trimmed (`.map(|s| s.trim())`). */
  function TrimAll(pieces: seq<string>): (r: seq<string>)
    ensures |r| == |pieces|
  {
    seq(|pieces|, i requires 0 <= i < |pieces| => Trim(pieces[i]))
  }

  predicate NonEmpty(s: string)
  {
    |s| > 0
  }

  /** The stream names among comma-separated pieces: trimmed, empty ones dropped. */
  function StreamNames(pieces: seq<string>): (r: seq<string>)
    ensures |r| <= |pieces|
  {
    SeqOps.Filter(NonEmpty, TrimAll(pieces))
  }

  /** Every stream name is a non-empty piece, trimmed. */
  lemma StreamNameOrigin(pieces: seq<string>, i: nat)
    requires i < |StreamNames(pieces)|
    ensures exists j :: 0 <= j < |pieces| && StreamNames(pieces)[i] == Trim(pieces[j])
    ensures |StreamNames(pieces)[i]| > 0
  {
    var trimmed := TrimAll(pieces);
    SeqOps.FilterMembers(NonEmpty, trimmed);
    var name := StreamNames(pieces)[i];
    assert name in SeqOps.Filter(NonEmpty, trimmed);
    var j :| 0 <= j < |trimmed| && trimmed[j] == name;
  }

  /** The stream list of a FROM clause. */
  function FromList(clause: string): seq<string>
  {
    StreamNames(Split(clause, ','))
  }

  /** Every stream of a FROM list is non-empty, comma-free and has no surrounding whitespace. */
  lemma FromListNames(clause: string, i: nat)
    requires i < |FromList(clause)|
    ensures var name := FromList(clause)[i];
            |name| > 0 && ',' !in name && !IsWhitespace(name[0]) && !IsWhitespace(name[|name| - 1])
  {
    var pieces := Split(clause, ',');
    var name := FromList(clause)[i];
    StreamNameOrigin(pieces, i);
    var j :| 0 <= j < |pieces| && name == Trim(pieces[j]);
    TrimKeepsAbsent(pieces[j], ',');
  }

  /** The names joined with `sep` in between. */
  function JoinWith(pieces: seq<string>, sep: string): string
    requires |pieces| >= 1
  {
    if |pieces| == 1 then pieces[0] else pieces[0] + sep + JoinWith(pieces[1..], sep)
  }

  /** Splitting a join on a character that no piece contains gives the pieces back. */
  lemma {:induction false} SplitOfJoin(pieces: seq<string>, sep: char)
    requires |pieces| >= 1
    requires forall i :: 0 <= i < |pieces| ==> sep !in pieces[i]
    ensures Split(JoinWith(pieces, [sep]), sep) == pieces
    decreases |pieces|
  {
    var x := pieces[0];
    if |pieces| == 1 {
      FindAbsent(x, [sep]);
    } else {
      SplitAtFirst(x, sep, JoinWith(pieces[1..], [sep]));
      SplitOfJoin(pieces[1..], sep);
    }
  }

  /** Text without the separator, the separator, then more: the first piece is that text. */
  lemma SplitAtFirst(x: string, sep: char, rest: string)
    requires sep !in x
    ensures Split(x + [sep] + rest, sep) == [x] + Split(rest, sep)
  {
    var s := x + [sep] + rest;
    assert OccursAt(s, [sep], |x|) by {
      assert s[|x|..|x| + 1] == [sep];
    }
    assert forall j :: 0 <= j < |x| ==> s[j] != sep by {
      assert forall j :: 0 <= j < |x| ==> s[j] == x[j];
    }
    FindOnlyCandidate(s, [sep], |x|);
    assert s[..|x|] == x && s[|x| + 1..] == rest;
  }

  /** Names that are already trimmed and non-empty are kept as they are. */
  lemma StreamNamesOfNames(names: seq<string>)
    requires forall i :: 0 <= i < |names| ==> |names[i]| > 0 && Trim(names[i]) == names[i]
    ensures StreamNames(names) == names
  {
    assert TrimAll(names) == names;
    SeqOps.FilterAll(NonEmpty, names);
  }

  /**
   * A FROM list written out with commas reads back as the same list: every
   * name that is non-empty, comma-free and trimmed survives unchanged.
   */
  lemma FromListRoundTrip(names: seq<string>)
    requires |names| >= 1
    requires forall i :: 0 <= i < |names| ==> |names[i]| > 0 && ',' !in names[i]
    requires forall i :: 0 <= i < |names| ==> !IsWhitespace(names[i][0]) && !IsWhitespace(names[i][|names[i]| - 1])
    ensures FromList(JoinWith(names, [','])) == names
  {
    SplitOfJoin(names, ',');
    forall i | 0 <= i < |names|
      ensures Trim(names[i]) == names[i]
    {
      TrimOfTrimmed(names[i]);
    }
    StreamNamesOfNames(names);
  }

  // ---------------------------------------------------------------------------
  // WHERE: splitting on AND
  // ---------------------------------------------------------------------------

  /** The parts of `s` from `from` on, cut at every case-insensitive " AND ". */
  function AndPartsFrom(s: string, upper: string, from: nat): (r: seq<string>)
    requires |upper| == |s| && from <= |s|
    ensures |r| >= 1
    decreases |s| - from
  {
    match Find(upper[from..], AND)
    case None => [s[from..]]
    case Some(i) => [s[from..from + i]] + AndPartsFrom(s, upper, from + i + |AND|)
  }

  /** `split_and` as a specification. */
  function AndParts(s: string): (r: seq<string>)
    ensures |r| >= 1
  {
    AndPartsFrom(s, ToUpper(s), 0)
  }

  /** Where " AND " is found, the first part ends there and the rest is cut after it. */
  lemma AndPartsFromCut(s: string, upper: string, from: nat, k: nat, next: nat)
    requires |upper| == |s| && from <= |s| && Find(upper[from..], AND) == Some(k) && next == from + k + |AND|
    ensures next <= |s|
    ensures AndPartsFrom(s, upper, from) == [s[from..from + k]] + AndPartsFrom(s, upper, next)
    ensures AndPartsFrom(s, upper, from)[0] == s[from..from + k]
    ensures AndPartsFrom(s, upper, from)[1..] == AndPartsFrom(s, upper, next)
  {
  }

  /** Moving the part before the next " AND " from what is left to what is done keeps the whole. */
  lemma CutOnePart(s: string, upper: string, done: seq<string>, from: nat, k: nat, next: nat, whole: seq<string>)
    requires |upper| == |s| && from <= |s| && Find(upper[from..], AND) == Some(k) && next == from + k + |AND|
    requires done + AndPartsFrom(s, upper, from) == whole
    ensures next <= |s|
    ensures (done + [s[from..from + k]]) + AndPartsFrom(s, upper, next) == whole
  {
    AndPartsFromCut(s, upper, from, k, next);
    SeqOps.AppendAssoc(done, [s[from..from + k]], AndPartsFrom(s, upper, next));
  }

  /** `split_and`: scans the upper-cased text for " AND " and cuts the original there. */
  method SplitAnd(s: string) returns (parts: seq<string>)
    ensures parts == AndParts(s)
  {
    var upper := ToUpper(s);
    ghost var whole := AndParts(s);
    parts := [];
    var last := 0;
    var searchPos := 0;
    var found := Find(upper[searchPos..], AND);
    while found.Some?
      invariant searchPos == last <= |s|
      invariant found == Find(upper[last..], AND)
      invariant parts + AndPartsFrom(s, upper, last) == whole
      decreases |s| - last
    {
      var next := last + found.value + |AND|;
      CutOnePart(s, upper, parts, last, found.value, next, whole);
      parts := parts + [s[last..last + found.value]];
      last := next;
      searchPos := last;
      found := Find(upper[searchPos..], AND);
    }
    parts := parts + [s[last..]];
  }

  /** The text before the first " AND " holds no " AND " itself. */
  lemma FirstPartHasNoSeparator(s: string, from: nat, k: nat)
    requires from <= |s| && Find(ToUpper(s)[from..], AND) == Some(k)
    ensures !Text.Contains(ToUpper(s[from..from + k]), AND)
  {
    var u := ToUpper(s);
    FindNoneBefore(u[from..], AND, k);
    SliceOfSuffix(u, from, k);
    ToUpperSlice(s, from, from + k);
  }

  /** The text after the last " AND " holds none. */
  lemma LastPartHasNoSeparator(s: string, from: nat)
    requires from <= |s| && Find(ToUpper(s)[from..], AND).None?
    ensures !Text.Contains(ToUpper(s[from..]), AND)
  {
    ToUpperSuffix(s, from);
  }

  /** No part holds the separator: every " AND " was cut at. */
  lemma {:induction false} AndPartsFromHaveNoSeparator(s: string, from: nat, i: nat)
    requires from <= |s| && i < |AndPartsFrom(s, ToUpper(s), from)|
    ensures !Text.Contains(ToUpper(AndPartsFrom(s, ToUpper(s), from)[i]), AND)
    decreases |s| - from
  {
    var upper := ToUpper(s);
    var parts := AndPartsFrom(s, upper, from);
    match Find(upper[from..], AND) {
      case None =>
        assert parts == [s[from..]];
        LastPartHasNoSeparator(s, from);
      case Some(k) =>
        var next := from + k + |AND|;
        AndPartsFromCut(s, upper, from, k, next);
        var rest := AndPartsFrom(s, upper, next);
        assert parts == [s[from..from + k]] + rest;
        if i == 0 {
          FirstPartHasNoSeparator(s, from, k);
        } else {
          assert parts[i] == rest[i - 1];
          AndPartsFromHaveNoSeparator(s, next, i - 1);
        }
    }
  }

  lemma AndPartsHaveNoSeparator(s: string, i: nat)
    requires i < |AndParts(s)|
    ensures !Text.Contains(ToUpper(AndParts(s)[i]), AND)
  {
    AndPartsFromHaveNoSeparator(s, 0, i);
  }

  /** Cutting loses nothing: the parts joined with " AND " give the text back, up to case. */
  lemma {:induction false} AndPartsFromRejoin(s: string, from: nat)
    requires from <= |s|
    ensures ToUpper(JoinWith(AndPartsFrom(s, ToUpper(s), from), AND)) == ToUpper(s[from..])
    decreases |s| - from
  {
    var upper := ToUpper(s);
    match Find(upper[from..], AND) {
      case None =>
      case Some(k) =>
        var p := from + k;
        var q := p + |AND|;
        AndPartsFromCut(s, upper, from, k, q);
        AndPartsFromRejoin(s, q);
        var joined := JoinWith(AndPartsFrom(s, upper, q), AND);
        var a, b, c := s[from..from + k], s[p..q], s[q..];
        assert JoinWith(AndPartsFrom(s, upper, from), AND) == a + AND + joined;
        FindSpec(upper[from..], AND);
        OccursInSuffix(upper, AND, from, p);
        ToUpperSlice(s, p, q);
        SliceInThree(s, from, p, q);
        RejoinStep(a, b, c, joined);
    }
  }

  /** Putting " AND " back where a case-insensitive " AND " was cut out restores the text, up to case. */
  lemma RejoinStep(a: string, b: string, c: string, joined: string)
    requires ToUpper(b) == AND && ToUpper(joined) == ToUpper(c)
    ensures ToUpper(a + AND + joined) == ToUpper(a + b + c)
  {
    ToUpperNoLower(AND);
    calc {
      ToUpper(a + AND + joined);
    == { ToUpperAppend(a + AND, joined); }
      ToUpper(a + AND) + ToUpper(joined);
    == { ToUpperAppend(a, AND); }
      ToUpper(a) + ToUpper(b) + ToUpper(c);
    == { ToUpperAppend(a, b); }
      ToUpper(a + b) + ToUpper(c);
    == { ToUpperAppend(a + b, c); }
      ToUpper(a + b + c);
    }
  }

  /** A suffix is the concatenation of its three consecutive slices. */
  lemma SliceInThree(s: string, i: nat, j: nat, k: nat)
    requires i <= j <= k <= |s|
    ensures s[i..] == s[i..j] + s[j..k] + s[k..]
  {
  }

  lemma AndPartsRejoin(s: string)
    ensures ToUpper(JoinWith(AndParts(s), AND)) == ToUpper(s)
  {
    AndPartsFromRejoin(s, 0);
    assert s[0..] == s;
  }

  // ---------------------------------------------------------------------------
  // WHERE: one condition
  // ---------------------------------------------------------------------------

  /** The text of each operator as `parse_conditions` looks for it. */
  function OpToken(op: CompareOp): (t: string)
    ensures |t| > 0
  {
    match op
    case Gte => ">="
    case Lte => "<="
    case Neq => "!="
    case Gt => ">"
    case Lt => "<"
    case Eq => "="
    case Contains => " CONTAINS "
    case StartsWith => " STARTSWITH "
  }

  /** Field text, operator and value text, cutting `part` at `p`. */
  function CutAt(part: string, p: nat, op: CompareOp): (string, CompareOp, string)
    requires p + |OpToken(op)| <= |part|
  {
    (part[..p], op, part[p + |OpToken(op)|..])
  }

  /** The number of operators `parse_conditions` tries. */
  const OPERATOR_COUNT: nat := 8

  /**
   * The operators in the order `parse_conditions` tries them: the symbols
   * first, two-character ones before one-character ones, then the words.
   */
  function OperatorOrder(k: nat): CompareOp
    requires k < OPERATOR_COUNT
  {
    if k == 0 then Gte
    else if k == 1 then Lte
    else if k == 2 then Neq
    else if k == 3 then Gt
    else if k == 4 then Lt
    else if k == 5 then Eq
    else if k == 6 then CompareOp.Contains
    else CompareOp.StartsWith
  }

  /** Symbols are searched for in the part itself, words in its upper case. */
  function Searched(part: string, k: nat): (t: string)
    ensures |t| == |part|
  {
    if k < 6 then part else ToUpper(part)
  }

  /** The first operator, from the `k`-th on, that occurs in `part`, and the text around it. */
  function FirstOperatorFrom(part: string, k: nat): Option<(string, CompareOp, string)>
    decreases OPERATOR_COUNT - k
  {
    if k >= OPERATOR_COUNT then None
    else
      var op := OperatorOrder(k);
      match Find(Searched(part, k), OpToken(op))
      case Some(p) => Some(CutAt(part, p, op))
      case None => FirstOperatorFrom(part, k + 1)
  }

  /**
   * The operator of a condition and the text on either side of it; the
   * words CONTAINS and STARTSWITH (with a space on each side, in any case)
   * are used only when no symbol occurs.
   */
  function SplitOperator(part: string): Option<(string, CompareOp, string)>
  {
    FirstOperatorFrom(part, 0)
  }

  /** The operator found is the `k`-th when all before it are missing and it occurs. */
  lemma {:induction false} FirstOperatorReaches(part: string, from: nat, k: nat, p: nat)
    requires from <= k < OPERATOR_COUNT
    requires forall m :: from <= m < k ==> Find(Searched(part, m), OpToken(OperatorOrder(m))).None?
    requires Find(Searched(part, k), OpToken(OperatorOrder(k))) == Some(p)
    ensures FirstOperatorFrom(part, from) == Some(CutAt(part, p, OperatorOrder(k)))
    decreases k - from
  {
    if from < k {
      FirstOperatorReaches(part, from + 1, k, p);
    }
  }

  /** The `k`-th operator occurs in `part` (in the text it is searched in). */
  predicate Hit(part: string, k: nat)
    requires k < OPERATOR_COUNT
  {
    Find(Searched(part, k), OpToken(OperatorOrder(k))).Some?
  }

  /** The `k`-th operator is the one found, at its first occurrence, after all before it from `from` were missing. */
  predicate FoundAt(part: string, from: nat, k: nat)
  {
    && from <= k < OPERATOR_COUNT
    && Hit(part, k)
    && FirstOperatorFrom(part, from)
       == Some(CutAt(part, Find(Searched(part, k), OpToken(OperatorOrder(k))).value, OperatorOrder(k)))
    && forall m :: from <= m < k ==> !Hit(part, m)
  }

  /** Whatever is found, it was searched for in order: every operator tried before it is missing. */
  lemma {:induction false} FirstOperatorFound(part: string, from: nat)
    requires FirstOperatorFrom(part, from).Some?
    ensures exists k :: FoundAt(part, from, k)
    decreases OPERATOR_COUNT - from
  {
    if Hit(part, from) {
      assert FoundAt(part, from, from);
    } else {
      assert FirstOperatorFrom(part, from) == FirstOperatorFrom(part, from + 1);
      FirstOperatorFound(part, from + 1);
      var k :| FoundAt(part, from + 1, k);
      assert FoundAt(part, from, k);
    }
  }

  /** Nothing is found exactly when none of the operators from the `k`-th on occurs. */
  lemma {:induction false} FirstOperatorMissing(part: string, from: nat)
    ensures FirstOperatorFrom(part, from).None? <==> forall m :: from <= m < OPERATOR_COUNT ==> !Hit(part, m)
    decreases OPERATOR_COUNT - from
  {
    if from < OPERATOR_COUNT {
      FirstOperatorMissing(part, from + 1);
      if Hit(part, from) {
        assert FirstOperatorFrom(part, from).Some?;
      } else {
        var none := FirstOperatorFrom(part, from).None?;
        assert none == FirstOperatorFrom(part, from + 1).None?;
        if none {
          forall m | from <= m < OPERATOR_COUNT
            ensures !Hit(part, m)
          {
            if m > from {
              assert from + 1 <= m;
            }
          }
        }
      }
    }
  }

  /**
   * A condition is its field text, the operator (a word operator in any
   * case) and its value text, in that order, with nothing left over.
   */
  lemma SplitOperatorShape(part: string)
    requires SplitOperator(part).Some?
    ensures var (f, op, v) := SplitOperator(part).value;
            |f| + |OpToken(op)| + |v| == |part| && part[..|f|] == f && part[|f| + |OpToken(op)|..] == v
            && ToUpper(part[|f|..|f| + |OpToken(op)|]) == OpToken(op)
  {
    FirstOperatorFound(part, 0);
    var k :| FoundAt(part, 0, k);
    var t := OpToken(OperatorOrder(k));
    var p := Find(Searched(part, k), t).value;
    FindSpec(Searched(part, k), t);
    OperatorTextAt(part, k, p);
    var cut := CutAt(part, p, OperatorOrder(k));
    assert SplitOperator(part).value == cut;
    assert |cut.0| == p && OpToken(cut.1) == t;
  }

  /** Where the `k`-th operator is found, the text is that operator, up to case. */
  lemma OperatorTextAt(part: string, k: nat, p: nat)
    requires k < OPERATOR_COUNT && OccursAt(Searched(part, k), OpToken(OperatorOrder(k)), p)
    ensures ToUpper(part[p..p + |OpToken(OperatorOrder(k))|]) == OpToken(OperatorOrder(k))
  {
    var t := OpToken(OperatorOrder(k));
    if k < 6 {
      assert part[p..p + |t|] == t;
      ToUpperNoLower(t);
    } else {
      ToUpperSlice(part, p, p + |t|);
    }
  }

  /** A text that lacks `short` lacks every pattern that has `short` inside it. */
  lemma NotFoundInside(s: string, short: string, long: string, n: nat)
    requires n + |short| <= |long| && long[n..n + |short|] == short
    requires Find(s, short).None?
    ensures Find(s, long).None?
  {
    FindSpec(s, short);
    forall j | 0 <= j <= |s|
      ensures !OccursAt(s, long, j)
    {
      if j + |long| <= |s| {
        assert OccursAt(long, short, n);
        OccursInSlice(s, short, j, j + |long|, n);
      }
    }
    FindSpec(s, long);
  }

  /** Parsing a condition fails exactly when no operator, symbol or word, occurs. */
  lemma SplitOperatorFails(part: string)
    ensures SplitOperator(part).None? <==>
              !Text.Contains(part, ">") && !Text.Contains(part, "<") && !Text.Contains(part, "=")
              && !Text.Contains(ToUpper(part), " CONTAINS ") && !Text.Contains(ToUpper(part), " STARTSWITH ")
  {
    FirstOperatorMissing(part, 0);
    HitsOfSingleOperators(part);
    if !Text.Contains(part, ">") && !Text.Contains(part, "<") && !Text.Contains(part, "=") {
      HitsOfDoubleOperators(part);
    }
  }

  /** The one-character and word operators are hit exactly when they occur. */
  lemma HitsOfSingleOperators(part: string)
    ensures Hit(part, 3) <==> Text.Contains(part, ">")
    ensures Hit(part, 4) <==> Text.Contains(part, "<")
    ensures Hit(part, 5) <==> Text.Contains(part, "=")
    ensures Hit(part, 6) <==> Text.Contains(ToUpper(part), " CONTAINS ")
    ensures Hit(part, 7) <==> Text.Contains(ToUpper(part), " STARTSWITH ")
  {
  }

  /** Without `>`, `<` and `=`, none of the two-character operators is hit. */
  lemma HitsOfDoubleOperators(part: string)
    requires !Text.Contains(part, ">") && !Text.Contains(part, "<") && !Text.Contains(part, "=")
    ensures !Hit(part, 0) && !Hit(part, 1) && !Hit(part, 2)
  {
    NotFoundInside(part, ">", ">=", 0);
    NotFoundInside(part, "<", "<=", 0);
    NotFoundInside(part, "=", "!=", 1);
  }

  /**
   * `>=` wins over every other operator, and a word operator is used only
   * when no comparison symbol occurs anywhere in the part.
   */
  lemma SplitOperatorPrecedence(part: string)
    ensures Text.Contains(part, ">=") ==> SplitOperator(part).Some? && SplitOperator(part).value.1 == Gte
    ensures SplitOperator(part).Some? && (SplitOperator(part).value.1.Contains? || SplitOperator(part).value.1.StartsWith?) ==>
              !Text.Contains(part, ">") && !Text.Contains(part, "<") && !Text.Contains(part, "=")
  {
    if Text.Contains(part, ">=") {
      assert Hit(part, 0);
    }
    if SplitOperator(part).Some? {
      FirstOperatorFound(part, 0);
      var k :| FoundAt(part, 0, k);
      if k >= 6 {
        assert !Hit(part, 3) && !Hit(part, 4) && !Hit(part, 5);
      }
    }
  }

  /** The value text with surrounding whitespace, then double, then single quotes removed. */
  function CleanValue(v: string): string
  {
    TrimMatches(TrimMatches(Trim(v), '"'), '\'')
  }

  /** The error `parse_conditions` reports for a part it cannot read. */
  function ConditionError(part: string): string
  {
    "Cannot parse condition: '" + part + "'"
  }

  /** One trimmed, non-empty WHERE part as a condition. */
  function ParseCondition(part: string): Result<Condition, string>
  {
    match SplitOperator(part)
    case None => Err(ConditionError(part))
    case Some((f, op, v)) => Ok(Condition(Trim(f), op, ParseValue(CleanValue(v))))
  }

  /** The characters the symbolic operators are made of. */
  predicate IsOperatorChar(c: char)
  {
    c == '<' || c == '>' || c == '=' || c == '!'
  }

  /** Text free of operator characters. */
  predicate NoOperatorChars(t: string)
  {
    forall k :: 0 <= k < |t| ==> !IsOperatorChar(t[k])
  }

  /** Every operator character of `part` lies in `[lo, hi)`. */
  predicate OperatorCharsOnlyIn(part: string, lo: nat, hi: nat)
  {
    forall k :: 0 <= k < |part| && !(lo <= k < hi) ==> !IsOperatorChar(part[k])
  }

  /** The symbolic operators. */
  predicate IsSymbol(op: CompareOp)
  {
    op.Gte? || op.Lte? || op.Neq? || op.Gt? || op.Lt? || op.Eq?
  }

  /** `field OP value` with operator-free sides: the operator characters are those of `OP`. */
  lemma SymbolicParts(field: string, tok: string, value: string)
    requires NoOperatorChars(field) && NoOperatorChars(value) && |tok| > 0
    ensures var part := field + tok + value;
            && part[..|field|] == field && part[|field| + |tok|..] == value
            && OperatorCharsOnlyIn(part, |field|, |field| + |tok|)
            && (forall k :: |field| <= k < |field| + |tok| ==> part[k] == tok[k - |field|])
            && (IsOperatorChar(tok[0]) ==> Find(part, tok) == Some(|field|))
  {
    var part := field + tok + value;
    var n := |field|;
    assert part[..n] == field;
    assert part[n + |tok|..] == value;
    assert forall k :: 0 <= k < n ==> part[k] == field[k];
    assert forall k :: n + |tok| <= k < |part| ==> part[k] == value[k - n - |tok|];
    if IsOperatorChar(tok[0]) {
      assert OccursAt(part, tok, n) by {
        assert part[n..n + |tok|] == tok;
      }
      FindOnlyCandidate(part, tok, n);
    }
  }

  /** An operator whose first character occurs nowhere in `part` is not found. */
  lemma AbsentSymbol(part: string, lo: nat, hi: nat, pat: string)
    requires lo <= hi <= |part| && OperatorCharsOnlyIn(part, lo, hi)
    requires |pat| > 0 && IsOperatorChar(pat[0])
    requires forall k :: lo <= k < hi ==> part[k] != pat[0]
    ensures Find(part, pat) == None
  {
    assert pat[0] !in part by {
      forall k | 0 <= k < |part|
        ensures part[k] != pat[0]
      {
      }
    }
    FindAbsent(part, pat);
  }

  /**
   * When the only operator character of `part` is the one at `n` and it is
   * not `=`, no two-character operator (one ending in `=`) occurs.
   */
  lemma NoTwoCharOperator(part: string, n: nat, two: string)
    requires |two| == 2 && two[1] == '='
    requires n < |part| && part[n] != '=' && OperatorCharsOnlyIn(part, n, n + 1)
    ensures Find(part, two) == None
  {
    forall j | 0 <= j <= |part|
      ensures !OccursAt(part, two, j)
    {
      if j + 2 <= |part| {
        assert part[j..j + 2][1] == part[j + 1];
      }
    }
    FindSpec(part, two);
  }

  /** `SymbolicSplit` for the two-character operators. */
  lemma SymbolicSplitTwoChar(field: string, op: CompareOp, value: string)
    requires (op.Gte? || op.Lte? || op.Neq?) && NoOperatorChars(field) && NoOperatorChars(value)
    ensures SplitOperator(field + OpToken(op) + value) == Some((field, op, value))
  {
    var tok := OpToken(op);
    var part := field + tok + value;
    var n := |field|;
    SymbolicParts(field, tok, value);
    assert Searched(part, 0) == Searched(part, 1) == Searched(part, 2) == part;
    if op.Gte? {
      FirstOperatorReaches(part, 0, 0, n);
    } else if op.Lte? {
      AbsentSymbol(part, n, n + 2, ">=");
      FirstOperatorReaches(part, 0, 1, n);
    } else {
      AbsentSymbol(part, n, n + 2, ">=");
      AbsentSymbol(part, n, n + 2, "<=");
      FirstOperatorReaches(part, 0, 2, n);
    }
  }

  /** `SymbolicSplit` for the one-character operators. */
  lemma SymbolicSplitOneChar(field: string, op: CompareOp, value: string)
    requires (op.Gt? || op.Lt? || op.Eq?) && NoOperatorChars(field) && NoOperatorChars(value)
    ensures SplitOperator(field + OpToken(op) + value) == Some((field, op, value))
  {
    var tok := OpToken(op);
    var part := field + tok + value;
    var n := |field|;
    SymbolicParts(field, tok, value);
    assert Searched(part, 0) == Searched(part, 1) == Searched(part, 2) == part;
    assert Searched(part, 3) == Searched(part, 4) == Searched(part, 5) == part;
    if op.Gt? {
      NoTwoCharOperator(part, n, ">=");
      AbsentSymbol(part, n, n + 1, "<=");
      AbsentSymbol(part, n, n + 1, "!=");
      FirstOperatorReaches(part, 0, 3, n);
    } else if op.Lt? {
      AbsentSymbol(part, n, n + 1, ">=");
      NoTwoCharOperator(part, n, "<=");
      AbsentSymbol(part, n, n + 1, "!=");
      AbsentSymbol(part, n, n + 1, ">");
      FirstOperatorReaches(part, 0, 4, n);
    } else {
      AbsentSymbol(part, n, n + 1, ">=");
      AbsentSymbol(part, n, n + 1, "<=");
      AbsentSymbol(part, n, n + 1, "!=");
      AbsentSymbol(part, n, n + 1, ">");
      AbsentSymbol(part, n, n + 1, "<");
      FirstOperatorReaches(part, 0, 5, n);
    }
  }

  /**
   * In `field OP value` with a symbolic operator and operator-free sides,
   * the operator found is `OP`, at the end of the field.
   */
  lemma SymbolicSplit(field: string, op: CompareOp, value: string)
    requires IsSymbol(op) && NoOperatorChars(field) && NoOperatorChars(value)
    ensures SplitOperator(field + OpToken(op) + value) == Some((field, op, value))
  {
    if op.Gte? || op.Lte? || op.Neq? {
      SymbolicSplitTwoChar(field, op, value);
    } else {
      SymbolicSplitOneChar(field, op, value);
    }
  }

  /**
   * A condition written `field OP value` with a symbolic operator reads back
   * as that field, operator and value, when neither side contains an
   * operator character or surrounding whitespace and the value is not quoted.
   */
  lemma ConditionRoundTrip(field: string, op: CompareOp, value: string)
    requires IsSymbol(op)
    requires |field| > 0 && !IsWhitespace(field[0]) && !IsWhitespace(field[|field| - 1])
    requires |value| > 0 && !IsWhitespace(value[0]) && !IsWhitespace(value[|value| - 1])
    requires value[0] != '"' && value[|value| - 1] != '"' && value[0] != '\'' && value[|value| - 1] != '\''
    requires NoOperatorChars(field) && NoOperatorChars(value)
    ensures ParseCondition(field + OpToken(op) + value) == Ok(Condition(field, op, ParseValue(value)))
  {
    SymbolicSplit(field, op, value);
    TrimOfTrimmed(field);
    TrimOfTrimmed(value);
    TrimMatchesUntouched(value, '"');
    TrimMatchesUntouched(value, '\'');
  }

  // ---------------------------------------------------------------------------
  // WHERE: values
  // ---------------------------------------------------------------------------

  /** Index of the first `c`, or `|s|`. */
  function IndexOf(s: string, c: char): (i: nat)
    ensures i <= |s|
    ensures forall k :: 0 <= k < i ==> s[k] != c
    ensures i < |s| ==> s[i] == c
  {
    if |s| == 0 || s[0] == c then 0 else 1 + IndexOf(s[1..], c)
  }

  /** Index of the first `e` or `E`, or `|s|`. */
  function ExponentIndex(s: string): (i: nat)
    ensures i <= |s|
    ensures forall k :: 0 <= k < i ==> s[k] != 'e' && s[k] != 'E'
    ensures i < |s| ==> s[i] == 'e' || s[i] == 'E'
  {
    if |s| == 0 || s[0] == 'e' || s[0] == 'E' then 0 else 1 + ExponentIndex(s[1..])
  }

  /** Digits with an optional decimal point, at least one digit in all. */
  predicate Mantissa(m: string)
  {
    var d := IndexOf(m, '.');
    AllDigits(m[..d]) && (d == |m| || AllDigits(m[d + 1..])) && (d > 0 || d + 1 < |m|)
  }

  /** An exponent after `e`: an optional sign and one or more digits. */
  predicate Exponent(x: string)
  {
    var ds := if |x| > 0 && (x[0] == '+' || x[0] == '-') then x[1..] else x;
    |ds| > 0 && AllDigits(ds)
  }

  /** `inf`, `infinity` or `nan`, in any case. */
  predicate InfOrNan(b: string)
  {
    var u := ToUpper(b);
    u == "INF" || u == "INFINITY" || u == "NAN"
  }

  /** The text after an optional sign. */
  function FloatBody(s: string): string
  {
    if |s| > 0 && (s[0] == '+' || s[0] == '-') then s[1..] else s
  }

  /** A decimal mantissa with an optional exponent, such as `1.5e-3`. */
  predicate DecimalFloat(b: string)
  {
    var e := ExponentIndex(b);
    Mantissa(b[..e]) && (e == |b| || Exponent(b[e + 1..]))
  }

  /** `f64::from_str` accepts `s`. */
  predicate FloatLiteral(s: string)
  {
    var b := FloatBody(s);
    DecimalFloat(b) || InfOrNan(b)
  }

  /** `base` to the power `k`. */
  function Power(base: nat, k: nat): (r: nat)
    ensures base >= 1 ==> r >= 1
  {
    if k == 0 then 1 else base * Power(base, k - 1)
  }

  /**
   * The least magnitude that `f64::from_str` rounds to infinity: the
   * midpoint between `f64::MAX` (2^1024 - 2^971) and 2^1024, where
   * round-half-to-even picks 2^1024.
   */
  function F64Overflow(): int
  {
    Power(2, 1024) - Power(2, 970)
  }

  /** The signed value of an exponent. */
  function ExponentValue(x: string): int
    requires Exponent(x)
  {
    if x[0] == '-' then 0 - DigitsValue(x[1..])
    else if x[0] == '+' then DigitsValue(x[1..])
    else DigitsValue(x)
  }

  /** The digits after the point of the mantissa of `b`. */
  function Fraction(b: string): string
    requires DecimalFloat(b)
  {
    var m := b[..ExponentIndex(b)];
    var d := IndexOf(m, '.');
    if d == |m| then "" else m[d + 1..]
  }

  /** The mantissa's digits read as one integer, without the point. */
  function MantissaDigits(b: string): nat
    requires DecimalFloat(b)
  {
    var m := b[..ExponentIndex(b)];
    DigitsValue(m[..IndexOf(m, '.')]) * Power(10, |Fraction(b)|) + DigitsValue(Fraction(b))
  }

  /** The power of ten that scales MantissaDigits to the value of `b`. */
  function Scale(b: string): int
    requires DecimalFloat(b)
  {
    var e := ExponentIndex(b);
    (if e == |b| then 0 else ExponentValue(b[e + 1..])) - |Fraction(b)|
  }

  /**
   * The decimal `b`, of value `MantissaDigits(b) * 10^Scale(b)`, has a
   * magnitude that a correctly rounded `f64::from_str` turns into an
   * infinity.
   */
  predicate Overflows(b: string)
    requires DecimalFloat(b)
  {
    var scale := Scale(b);
    if scale >= 0 then MantissaDigits(b) * Power(10, scale) >= F64Overflow()
    else MantissaDigits(b) >= F64Overflow() * Power(10, -scale)
  }

  /** The `f64` read from the body `b` is an infinity or NaN. */
  predicate NotFinite(b: string)
  {
    InfOrNan(b) || (DecimalFloat(b) && Overflows(b))
  }

  /**
   * `parse_value`: an `i64`, else an `f64` (a non-finite one, whether
   * written `inf`/`nan` or too large for `f64`, becomes `null`, as `json!`
   * makes it), else `true`, `false`, `null`, else the text as a string.
   */
  function ParseValue(s: string): (v: Json)
    ensures v.Int? <==> ParseI64(s).Some?
    ensures v.Float? <==> ParseI64(s).None? && FloatLiteral(s) && !NotFinite(FloatBody(s))
    ensures v.Null? <==> s == "null" || (ParseI64(s).None? && FloatLiteral(s) && NotFinite(FloatBody(s)))
    ensures v.Str? ==> v.s == s
    ensures v.Float? ==> v.text == s
  {
    match ParseI64(s)
    case Some(n) => Int(n)
    case None =>
      if FloatLiteral(s) then (if NotFinite(FloatBody(s)) then Null else Float(s))
      else if s == "true" then Bool(true)
      else if s == "false" then Bool(false)
      else if s == "null" then Null
      else Str(s)
  }

  /** `base^(j + k)` is `base^j * base^k`. */
  lemma {:induction false} PowerAdd(base: nat, j: nat, k: nat)
    ensures Power(base, j + k) == Power(base, j) * Power(base, k)
  {
    if j > 0 {
      PowerAdd(base, j - 1, k);
      var p, q := Power(base, j - 1), Power(base, k);
      assert Power(base, j + k) == base * (p * q);
      MulAssociative(base, p, q);
    }
  }

  lemma MulAssociative(a: int, b: int, c: int)
    ensures a * (b * c) == (a * b) * c
  {
  }

  lemma MulMonotone(x: nat, y: nat, x': nat, y': nat)
    requires x <= x' && y <= y'
    ensures x * y <= x' * y'
  {
    assert x * y <= x' * y;
    assert x' * y <= x' * y';
  }

  /** A larger base gives a larger power. */
  lemma {:induction false} PowerMonotone(a: nat, b: nat, k: nat)
    requires a <= b
    ensures Power(a, k) <= Power(b, k)
  {
    if k > 0 {
      PowerMonotone(a, b, k - 1);
      MulMonotone(a, Power(a, k - 1), b, Power(b, k - 1));
    }
  }

  /** `8^k` is `2^(3k)`. */
  lemma {:induction false} PowerEight(k: nat)
    ensures Power(8, k) == Power(2, 3 * k)
  {
    if k > 0 {
      PowerEight(k - 1);
      PowerAdd(2, 3, 3 * (k - 1));
    }
  }

  /** `10^k` reaches the overflow threshold from `k = 342`, since 2^1026 exceeds it. */
  lemma PowerTenOverflows(k: nat)
    requires k >= 342
    ensures Power(10, k) >= F64Overflow()
  {
    PowerMonotone(8, 10, k);
    PowerEight(k);
    var top, rest := Power(2, 1024), Power(2, 3 * k - 1024);
    PowerAdd(2, 1024, 3 * k - 1024);
    MulMonotone(top, 1, top, rest);
    assert Power(2, 3 * k) >= top;
  }

  /**
   * A literal too large for `f64`, such as `1e400`, is read as infinity
   * and so becomes `null`, whatever its sign.
   */
  lemma OverflowIsNull(s: string)
    requires s == "1e400" || s == "-1e400"
    ensures ParseValue(s) == Null
  {
    var b := "1e400";
    OneE400Digits(b);
    assert !IsDigit(b[1]);
    if s != b {
      assert s[1..] == b;
    }
    assert FloatBody(s) == b;
    HugeLiteralIsNull(s);
  }

  /** `1e400` is the mantissa 1 scaled by 10^400. */
  lemma OneE400Digits(b: string)
    requires b == "1e400"
    ensures DecimalFloat(b) && MantissaDigits(b) == 1 && Scale(b) == 400
  {
    assert ExponentIndex(b) == 1;
    assert b[..1] == "1" && b[2..] == "400";
    assert IndexOf("1", '.') == 1;
    assert "400"[..2] == "40" && "40"[..1] == "4" && "4"[..0] == "";
    assert DigitsValue("4") == 4;
    assert DigitsValue("40") == 40;
    assert DigitsValue("400") == 400;
    assert ExponentValue("400") == 400;
    assert Fraction(b) == "";
  }

  /** A decimal too large for `f64` that is no `i64` becomes `null`. */
  lemma HugeLiteralIsNull(s: string)
    requires ParseI64(s).None? && DecimalFloat(FloatBody(s))
    requires MantissaDigits(FloatBody(s)) >= 1 && Scale(FloatBody(s)) >= 342
    ensures ParseValue(s) == Null
  {
    LargeScaleOverflows(FloatBody(s));
  }

  /** A mantissa of at least 1 scaled by 10^342 or more overflows. */
  lemma LargeScaleOverflows(b: string)
    requires DecimalFloat(b) && MantissaDigits(b) >= 1 && Scale(b) >= 342
    ensures Overflows(b)
  {
    PowerTenOverflows(Scale(b));
    MulMonotone(1, Power(10, Scale(b)), MantissaDigits(b), Power(10, Scale(b)));
  }

  /** An integer written in decimal reads back as that integer. */
  lemma ParseValueInteger(n: i64)
    ensures ParseValue(SignedDecimal(n)) == Int(n)
  {
    ParseI64Decimal(n);
  }

  /**
   * Text that cannot start a number, `inf`, `nan`, `true`, `false` or
   * `null` stays a string.
   */
  lemma ParseValueWord(s: string)
    requires |s| > 0 && !IsDigit(s[0])
    requires s[0] !in "+-.iInNtf"
    ensures ParseValue(s) == Str(s)
  {
    WordIsNoNumber(s);
    assert s[0] != "true"[0] && s[0] != "false"[0] && s[0] != "null"[0];
  }

  /** Text starting with a letter other than `i`, `n` reads as no number. */
  lemma WordIsNoNumber(s: string)
    requires |s| > 0 && !IsDigit(s[0])
    requires s[0] !in "+-.iInN"
    ensures ParseI64(s).None? && !FloatLiteral(s)
  {
    assert FloatBody(s) == s;
    var e := ExponentIndex(s);
    if e > 0 {
      var m := s[..e];
      var d := IndexOf(m, '.');
      assert m[0] == s[0] != '.';
      assert d > 0;
      assert m[..d][0] == s[0];
    }
    assert ToUpper(s)[0] == UpperChar(s[0]);
    assert !AllDigits(s) by {
      assert !IsDigit(s[0]);
    }
  }

  // ---------------------------------------------------------------------------
  // WHERE: all conditions
  // ---------------------------------------------------------------------------

  /**
   * What `parse_conditions` makes of one WHERE part: nothing when it is
   * blank, otherwise the condition read from its trimmed text, or the error.
   */
  function ReadPart(part: string): (r: Option<Result<Condition, string>>)
    ensures r.None? <==> |Trim(part)| == 0
  {
    var p := Trim(part);
    if |p| == 0 then None else Some(ParseCondition(p))
  }

  /** A part is acceptable to `read` when it is skipped or read without error. */
  predicate Readable<T>(read: string -> Option<Result<T, string>>, part: string)
  {
    read(part).None? || read(part).value.Ok?
  }

  /**
   * The values `read` makes of the parts, in order, skipping the parts it
   * skips; the first error ends the fold.
   */
  function Collect<T>(read: string -> Option<Result<T, string>>, parts: seq<string>): (r: Result<seq<T>, string>)
    ensures r.Ok? ==> |r.value| <= |parts|
    decreases |parts|
  {
    if |parts| == 0 then Ok([])
    else
      match Collect(read, parts[..|parts| - 1])
      case Err(e) => Err(e)
      case Ok(vs) =>
        match read(parts[|parts| - 1])
        case None => Ok(vs)
        case Some(Err(e)) => Err(e)
        case Some(Ok(v)) => Ok(vs + [v])
  }

  /** The fold succeeds exactly when every part is acceptable. */
  lemma {:induction false} CollectOk<T>(read: string -> Option<Result<T, string>>, parts: seq<string>)
    ensures Collect(read, parts).Ok? <==> forall i :: 0 <= i < |parts| ==> Readable(read, parts[i])
    decreases |parts|
  {
    if |parts| > 0 {
      var init := parts[..|parts| - 1];
      CollectOk(read, init);
      assert forall i :: 0 <= i < |init| ==> init[i] == parts[i];
    }
  }

  /** A failed fold reports the error of the first part that is not acceptable. */
  lemma {:induction false} CollectErr<T>(read: string -> Option<Result<T, string>>, parts: seq<string>)
    requires Collect(read, parts).Err?
    ensures exists i :: 0 <= i < |parts| && !Readable(read, parts[i])
                        && (forall j :: 0 <= j < i ==> Readable(read, parts[j]))
                        && Some(Err(Collect(read, parts).error)) == read(parts[i])
    decreases |parts|
  {
    var init := parts[..|parts| - 1];
    assert forall i :: 0 <= i < |init| ==> init[i] == parts[i];
    if Collect(read, init).Err? {
      CollectErr(read, init);
    } else {
      CollectOk(read, init);
    }
  }

  /** The values of a successful fold are those of the parts read, in order. */
  lemma {:induction false} CollectValues<T>(read: string -> Option<Result<T, string>>, parts: seq<string>, i: nat)
    requires Collect(read, parts).Ok? && i < |parts| && read(parts[i]).Some?
    ensures read(parts[i]).value.Ok? && read(parts[i]).value.value in Collect(read, parts).value
    decreases |parts|
  {
    var init := parts[..|parts| - 1];
    if i < |init| {
      assert init[i] == parts[i];
      CollectValues(read, init, i);
    }
  }

  /** Once a prefix of the parts fails, the whole fails with the same error. */
  lemma {:induction false} CollectErrSticks<T>(read: string -> Option<Result<T, string>>, parts: seq<string>, i: nat)
    requires i <= |parts| && Collect(read, parts[..i]).Err?
    ensures Collect(read, parts) == Collect(read, parts[..i])
    decreases |parts| - i
  {
    if i < |parts| {
      assert parts[..i + 1][..i] == parts[..i];
      CollectErrSticks(read, parts, i + 1);
    } else {
      assert parts[..i] == parts;
    }
  }

  /** The conditions of the WHERE parts. */
  function ConditionsOf(parts: seq<string>): Result<seq<Condition>, string>
  {
    Collect(ReadPart, parts)
  }

  /** The loop of `parse_conditions`: read each part in turn, stopping at the first error. */
  method CollectParts<T>(read: string -> Option<Result<T, string>>, parts: seq<string>) returns (r: Result<seq<T>, string>)
    ensures r == Collect(read, parts)
  {
    var values := [];
    for i := 0 to |parts|
      invariant Collect(read, parts[..i]) == Ok(values)
    {
      assert parts[..i + 1][..i] == parts[..i];
      match read(parts[i]) {
        case None =>
        case Some(Err(e)) =>
          CollectErrSticks(read, parts, i + 1);
          return Err(e);
        case Some(Ok(v)) =>
          values := values + [v];
      }
    }
    assert parts[..|parts|] == parts;
    r := Ok(values);
  }

  /**
   * `parse_conditions`: split on AND, then read each part (trimmed; blank
   * parts skipped), stopping at the first part that is not a condition.
   */
  method ParseConditions(s: string) returns (r: Result<seq<Condition>, string>)
    ensures r == ConditionsOf(AndParts(s))
  {
    var parts := SplitAnd(s);
    r := CollectParts(ReadPart, parts);
  }

  // ---------------------------------------------------------------------------
  // The whole query
  // ---------------------------------------------------------------------------

  /** A LIMIT or OFFSET clause replaces the default only when it is a number. */
  function NumberClause(input: string, kw: string, default: nat): nat
  {
    match Clause(input, kw)
    case None => default
    case Some(c) =>
      match ParseUsize(c)
      case None => default
      case Some(v) => v
  }

  /** The streams of the FROM clause, if there is one. */
  function StreamsOf(input: string): seq<string>
  {
    match Clause(input, "FROM ")
    case None => []
    case Some(c) => FromList(c)
  }

  /** The conditions of the WHERE clause, if there is one. */
  function WhereConditions(input: string): Result<seq<Condition>, string>
  {
    match Clause(input, "WHERE ")
    case None => Ok([])
    case Some(c) => ConditionsOf(AndParts(c))
  }

  /**
   * The query a trimmed text denotes: every clause is looked up on its own;
   * the only failure is a WHERE part with no operator.
   */
  function QueryOf(input: string): Result<Query, string>
  {
    match WhereConditions(input)
    case Err(e) => Err(e)
    case Ok(conditions) =>
      Ok(Query(StreamsOf(input), conditions, Clause(input, "SINCE "), Clause(input, "UNTIL "),
               NumberClause(input, "LIMIT ", DEFAULT_LIMIT), NumberClause(input, "OFFSET ", 0)))
  }

  /**
   * `parse`: trims the text, starts from the defaults (no streams, no
   * conditions, LIMIT 100, OFFSET 0) and fills in each clause it finds.
   */
  method Parse(raw: string) returns (r: Result<Query, string>)
    ensures r == QueryOf(Trim(raw))
  {
    var input := Trim(raw);
    var query := Query([], [], None, None, DEFAULT_LIMIT, 0);

    var fromText := ExtractClause(input, "FROM ");
    if fromText.Some? {
      query := query.(from := FromList(fromText.value));
    }

    var whereText := ExtractClause(input, "WHERE ");
    if whereText.Some? {
      var conditions := ParseConditions(whereText.value);
      if conditions.Err? {
        return Err(conditions.error);
      }
      query := query.(conditions := conditions.value);
    }

    query := ParseWindow(input, query);
    query := ParsePaging(input, query);
    return Ok(query);
  }

  /** The SINCE and UNTIL steps of `parse`: a clause that is present replaces the bound. */
  method ParseWindow(input: string, query: Query) returns (q: Query)
    ensures q == query.(since := if Clause(input, "SINCE ").Some? then Clause(input, "SINCE ") else query.since,
                        until := if Clause(input, "UNTIL ").Some? then Clause(input, "UNTIL ") else query.until)
  {
    q := query;
    var sinceText := ExtractClause(input, "SINCE ");
    if sinceText.Some? {
      q := q.(since := sinceText);
    }
    var untilText := ExtractClause(input, "UNTIL ");
    if untilText.Some? {
      q := q.(until := untilText);
    }
  }

  /** The LIMIT and OFFSET steps of `parse`: a clause that reads as a number replaces the default. */
  method ParsePaging(input: string, query: Query) returns (q: Query)
    ensures q == query.(limit := NumberClause(input, "LIMIT ", query.limit),
                        offset := NumberClause(input, "OFFSET ", query.offset))
  {
    q := query;
    var limitText := ExtractClause(input, "LIMIT ");
    if limitText.Some? {
      var n := ParseUsize(limitText.value);
      if n.Some? {
        q := q.(limit := n.value);
      }
    }
    var offsetText := ExtractClause(input, "OFFSET ");
    if offsetText.Some? {
      var n := ParseUsize(offsetText.value);
      if n.Some? {
        q := q.(offset := n.value);
      }
    }
  }

  /** Without the keyword, LIMIT is 100 and OFFSET is 0. */
  lemma DefaultsWithoutClauses(input: string)
    requires !Text.Contains(ToUpper(input), "LIMIT ") && !Text.Contains(ToUpper(input), "OFFSET ")
    ensures NumberClause(input, "LIMIT ", DEFAULT_LIMIT) == 100
    ensures NumberClause(input, "OFFSET ", 0) == 0
  {
  }
}
