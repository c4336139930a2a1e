/**
 * The parts of Rust's `str` API the hub relies on, over `seq<char>`:
 * whitespace trimming and splitting (Unicode `White_Space`), substring
 * search, splitting on a character, replacement, ASCII case mapping, and
 * the integer `FromStr` parsers. Indices are character positions.
 */
module Text {
  import opened Wrappers
  import opened Widths

  // ---------------------------------------------------------------------------
  // Whitespace and trimming
  // ---------------------------------------------------------------------------

  /** `char::is_whitespace`: the Unicode `White_Space` property. */
  predicate IsWhitespace(c: char)
  {
    ('\U{9}' <= c <= '\U{D}') || c == ' ' || c == '\U{85}' || c == '\U{A0}' || c == '\U{1680}'
    || ('\U{2000}' <= c <= '\U{200A}') || c == '\U{2028}' || c == '\U{2029}' || c == '\U{202F}'
    || c == '\U{205F}' || c == '\U{3000}'
  }

  /** Number of leading whitespace characters. */
  function LeadingWs(s: string): (n: nat)
    ensures n <= |s|
    ensures n < |s| ==> !IsWhitespace(s[n])
  {
    if |s| == 0 || !IsWhitespace(s[0]) then 0 else 1 + LeadingWs(s[1..])
  }

  /** Everything `LeadingWs` counts is whitespace. */
  lemma {:induction false} LeadingWsIsWhitespace(s: string)
    ensures forall k :: 0 <= k < LeadingWs(s) ==> IsWhitespace(s[k])
    decreases |s|
  {
    if |s| > 0 && IsWhitespace(s[0]) {
      LeadingWsIsWhitespace(s[1..]);
      assert forall k :: 1 <= k < LeadingWs(s) ==> s[k] == s[1..][k - 1];
    }
  }

  /** Number of trailing whitespace characters. */
  function TrailingWs(s: string): (n: nat)
    ensures n <= |s|
    ensures n < |s| ==> !IsWhitespace(s[|s| - n - 1])
  {
    if |s| == 0 || !IsWhitespace(s[|s| - 1]) then 0 else 1 + TrailingWs(s[..|s| - 1])
  }

  /** `trim_start`. */
  function TrimStart(s: string): (r: string)
    ensures r == s[LeadingWs(s)..]
    ensures |r| > 0 ==> !IsWhitespace(r[0])
  {
    s[LeadingWs(s)..]
  }

  /** `trim_end`. */
  function TrimEnd(s: string): (r: string)
    ensures r == s[..|s| - TrailingWs(s)]
    ensures |r| > 0 ==> !IsWhitespace(r[|r| - 1])
  {
    s[..|s| - TrailingWs(s)]
  }

  /**
   * `trim`: the part of `s` between its leading and trailing whitespace;
   * what was removed is all whitespace and what is left neither starts nor
   * ends with it.
   */
  function Trim(s: string): (r: string)
    ensures LeadingWs(s) + |r| <= |s| && r == s[LeadingWs(s)..LeadingWs(s) + |r|]
    ensures |r| > 0 ==> !IsWhitespace(r[0]) && !IsWhitespace(r[|r| - 1])
  {
    TrimEnd(TrimStart(s))
  }

  /** Trimming twice is trimming once. */
  lemma TrimIdempotent(s: string)
    ensures Trim(Trim(s)) == Trim(s)
  {
    var t := Trim(s);
    if |t| > 0 {
      assert LeadingWs(t) == 0;
      assert TrailingWs(t) == 0;
    }
  }

  /** `trim_matches(c)`: strip every leading and trailing `c`. */
  function TrimMatches(s: string, c: char): (r: string)
    ensures |r| <= |s|
    ensures |r| > 0 ==> r[0] != c && r[|r| - 1] != c
    ensures forall k :: 0 <= k < |r| ==> r[k] in s
    decreases |s|
  {
    if |s| == 0 then s
    else if s[0] == c then TrimMatches(s[1..], c)
    else if s[|s| - 1] == c then TrimMatches(s[..|s| - 1], c)
    else s
  }

  /** Trimming never adds a character. */
  lemma TrimKeepsAbsent(s: string, c: char)
    requires c !in s
    ensures c !in Trim(s)
  {
    var l := LeadingWs(s);
    var r := Trim(s);
    assert forall k :: 0 <= k < |r| ==> r[k] == s[l + k];
  }

  /** A string that neither starts nor ends with whitespace is its own trim. */
  lemma TrimOfTrimmed(s: string)
    requires |s| == 0 || (!IsWhitespace(s[0]) && !IsWhitespace(s[|s| - 1]))
    ensures Trim(s) == s
  {
    assert LeadingWs(s) == 0;
    assert TrailingWs(s) == 0;
  }

  /** `trim_matches(c)` leaves alone a string that neither starts nor ends with `c`. */
  lemma TrimMatchesUntouched(s: string, c: char)
    requires |s| == 0 || (s[0] != c && s[|s| - 1] != c)
    ensures TrimMatches(s, c) == s
  {
  }

  /** The length of the run of non-whitespace characters that starts `s`. */
  function TokenLen(s: string): (n: nat)
    ensures n <= |s|
    ensures forall k :: 0 <= k < n ==> !IsWhitespace(s[k])
    ensures n < |s| ==> IsWhitespace(s[n])
  {
    if |s| == 0 || IsWhitespace(s[0]) then 0 else 1 + TokenLen(s[1..])
  }

  predicate NoWhitespace(t: string)
  {
    forall k :: 0 <= k < |t| ==> !IsWhitespace(t[k])
  }

  /** `split_whitespace`: the maximal non-empty runs of non-whitespace, in order. */
  function SplitWhitespace(s: string): (r: seq<string>)
    ensures forall i :: 0 <= i < |r| ==> |r[i]| > 0 && NoWhitespace(r[i])
    decreases |s|
  {
    var t := TrimStart(s);
    if |t| == 0 then []
    else
      var n := TokenLen(t);
      [t[..n]] + SplitWhitespace(t[n..])
  }

  /** A token followed by whitespace (or nothing) is the first piece of the split. */
  lemma SplitWhitespaceCons(t: string, rest: string)
    requires |t| > 0 && NoWhitespace(t)
    requires |rest| == 0 || IsWhitespace(rest[0])
    ensures SplitWhitespace(t + rest) == [t] + SplitWhitespace(rest)
  {
    var s := t + rest;
    assert s[0] == t[0];
    assert LeadingWs(s) == 0;
    assert TrimStart(s) == s;
    assert forall k :: 0 <= k < |t| ==> s[k] == t[k];
    if |rest| > 0 {
      assert s[|t|] == rest[0];
    }
    assert TokenLen(s) == |t|;
    assert s[..|t|] == t && s[|t|..] == rest;
  }

  /** A leading space does not change the split of text that starts with a token. */
  lemma SplitWhitespaceSkipSpace(x: string)
    requires |x| > 0 && !IsWhitespace(x[0])
    ensures SplitWhitespace(" " + x) == SplitWhitespace(x)
  {
    var s := " " + x;
    assert s[1..] == x;
    assert LeadingWs(x) == 0;
    assert LeadingWs(s) == 1;
    assert TrimStart(s) == x == TrimStart(x);
  }

  /** Three tokens separated by single spaces split back into those tokens. */
  lemma SplitThreeTokens(a: string, b: string, c: string)
    requires |a| > 0 && NoWhitespace(a) && |b| > 0 && NoWhitespace(b) && |c| > 0 && NoWhitespace(c)
    ensures SplitWhitespace(a + " " + b + " " + c) == [a, b, c]
  {
    var sbc := " " + (b + (" " + c));
    SpacedPair(b, c);
    assert sbc[0] == ' ';
    SplitWhitespaceCons(a, sbc);
    SpacedConcat(a, b, c);
    assert [a] + [b, c] == [a, b, c];
  }

  /** A space, a token, a space and a token split into the two tokens. */
  lemma SpacedPair(b: string, c: string)
    requires |b| > 0 && NoWhitespace(b) && |c| > 0 && NoWhitespace(c)
    ensures SplitWhitespace(" " + (b + (" " + c))) == [b, c]
  {
    var sc := " " + c;
    var bc := b + sc;
    assert SplitWhitespace(sc) == [c] by {
      SplitWhitespaceCons(c, []);
      assert c + [] == c;
      SplitWhitespaceSkipSpace(c);
    }
    assert sc[0] == ' ';
    SplitWhitespaceCons(b, sc);
    assert bc[0] == b[0];
    SplitWhitespaceSkipSpace(bc);
    assert [b] + [c] == [b, c];
  }

  lemma SpacedConcat(a: string, b: string, c: string)
    ensures a + " " + b + " " + c == a + (" " + (b + (" " + c)))
  {
  }

  /** The characters of `s` that are not whitespace. */
  function RemoveWhitespace(s: string): string
  {
    if |s| == 0 then [] else (if IsWhitespace(s[0]) then [] else [s[0]]) + RemoveWhitespace(s[1..])
  }

  function Concat(ts: seq<string>): string
  {
    if |ts| == 0 then [] else ts[0] + Concat(ts[1..])
  }

  lemma {:induction false} RemoveWhitespaceAppend(a: string, b: string)
    ensures RemoveWhitespace(a + b) == RemoveWhitespace(a) + RemoveWhitespace(b)
    decreases |a|
  {
    if |a| > 0 {
      assert (a + b)[1..] == a[1..] + b;
      RemoveWhitespaceAppend(a[1..], b);
    } else {
      assert a + b == b;
    }
  }

  lemma {:induction false} RemoveWhitespaceOfWhitespace(a: string)
    requires forall k :: 0 <= k < |a| ==> IsWhitespace(a[k])
    ensures RemoveWhitespace(a) == []
    decreases |a|
  {
    if |a| > 0 {
      RemoveWhitespaceOfWhitespace(a[1..]);
    }
  }

  lemma {:induction false} RemoveWhitespaceOfToken(a: string)
    requires NoWhitespace(a)
    ensures RemoveWhitespace(a) == a
    decreases |a|
  {
    if |a| > 0 {
      RemoveWhitespaceOfToken(a[1..]);
    }
  }

  /** The tokens, put back together, are exactly the non-whitespace characters of the input. */
  lemma {:induction false} SplitWhitespaceKeepsEverything(s: string)
    ensures Concat(SplitWhitespace(s)) == RemoveWhitespace(s)
    decreases |s|
  {
    var t := TrimStart(s);
    TrimStartKeepsText(s);
    if |t| > 0 {
      var n := TokenLen(t);
      TokenKeepsText(t);
      SplitWhitespaceKeepsEverything(t[n..]);
      var r := SplitWhitespace(s);
      assert r == [t[..n]] + SplitWhitespace(t[n..]);
      assert r[1..] == SplitWhitespace(t[n..]);
    }
  }

  /** Leading whitespace holds no text. */
  lemma TrimStartKeepsText(s: string)
    ensures RemoveWhitespace(TrimStart(s)) == RemoveWhitespace(s)
  {
    var lead := LeadingWs(s);
    assert s == s[..lead] + TrimStart(s);
    RemoveWhitespaceAppend(s[..lead], TrimStart(s));
    LeadingWsIsWhitespace(s);
    RemoveWhitespaceOfWhitespace(s[..lead]);
  }

  /** A leading token is kept whole. */
  lemma TokenKeepsText(t: string)
    ensures RemoveWhitespace(t) == t[..TokenLen(t)] + RemoveWhitespace(t[TokenLen(t)..])
  {
    var n := TokenLen(t);
    assert t == t[..n] + t[n..];
    RemoveWhitespaceAppend(t[..n], t[n..]);
    RemoveWhitespaceOfToken(t[..n]);
  }

  // ---------------------------------------------------------------------------
  // Search
  // ---------------------------------------------------------------------------

  /** `pat` occurs in `s` at index `i`. */
  predicate OccursAt(s: string, pat: string, i: nat)
  {
    i + |pat| <= |s| && s[i..i + |pat|] == pat
  }

  /** The first occurrence of `pat` in `s` at or after `from`. */
  function FindFrom(s: string, pat: string, from: nat): (r: Option<nat>)
    requires from <= |s|
    ensures r.Some? ==> from <= r.value && r.value + |pat| <= |s|
    decreases |s| - from
  {
    if OccursAt(s, pat, from) then Some(from)
    else if from == |s| then None
    else FindFrom(s, pat, from + 1)
  }

  /** `FindFrom` finds an occurrence, and no earlier one; `None` means there is none. */
  lemma {:induction false} FindFromSpec(s: string, pat: string, from: nat)
    requires from <= |s|
    ensures FindFrom(s, pat, from).Some? ==> OccursAt(s, pat, FindFrom(s, pat, from).value)
    ensures FindFrom(s, pat, from).Some? ==> forall j :: from <= j < FindFrom(s, pat, from).value ==> !OccursAt(s, pat, j)
    ensures FindFrom(s, pat, from).None? ==> forall j :: from <= j <= |s| ==> !OccursAt(s, pat, j)
    decreases |s| - from
  {
    if !OccursAt(s, pat, from) && from < |s| {
      FindFromSpec(s, pat, from + 1);
    }
  }

  /** `str::find`: the first index where `pat` occurs, if any. */
  function Find(s: string, pat: string): (r: Option<nat>)
    ensures r.Some? ==> r.value + |pat| <= |s|
  {
    FindFrom(s, pat, 0)
  }

  /** What `Find` promises: the first occurrence, or none at all. */
  lemma FindSpec(s: string, pat: string)
    ensures Find(s, pat).Some? ==> OccursAt(s, pat, Find(s, pat).value)
    ensures Find(s, pat).Some? ==> forall j :: 0 <= j < Find(s, pat).value ==> !OccursAt(s, pat, j)
    ensures Find(s, pat).None? ==> forall j :: 0 <= j <= |s| ==> !OccursAt(s, pat, j)
  {
    FindFromSpec(s, pat, 0);
  }

  /** Nothing is found in the text before the first occurrence. */
  lemma FindNoneBefore(t: string, pat: string, k: nat)
    requires |pat| > 0 && Find(t, pat) == Some(k)
    ensures Find(t[..k], pat) == None
  {
    var h := t[..k];
    FindSpec(t, pat);
    FindSpec(h, pat);
    if Find(h, pat).Some? {
      var j := Find(h, pat).value;
      assert h[j..j + |pat|] == t[j..j + |pat|];
      assert OccursAt(t, pat, j);
    }
  }

  /** A prefix of a suffix is a slice. */
  lemma SliceOfSuffix(t: string, a: nat, k: nat)
    requires a + k <= |t|
    ensures t[a..][..k] == t[a..a + k]
  {
  }

  /** An occurrence inside a slice is an occurrence in the whole, shifted by the slice start. */
  lemma OccursInSlice(s: string, pat: string, a: nat, b: nat, j: nat)
    requires a <= b <= |s|
    ensures OccursAt(s[a..b], pat, j) ==> OccursAt(s, pat, a + j)
  {
    if OccursAt(s[a..b], pat, j) {
      var t := s[a..b];
      var u, v := t[j..j + |pat|], s[a + j..a + j + |pat|];
      assert forall k :: 0 <= k < |pat| ==> u[k] == v[k];
      assert u == v;
    }
  }

  /** Occurrences in a suffix are the occurrences in the whole from its start on. */
  lemma OccursInSuffix(s: string, pat: string, from: nat, k: nat)
    requires from <= k <= |s|
    ensures OccursAt(s[from..], pat, k - from) <==> OccursAt(s, pat, k)
  {
    if k + |pat| <= |s| {
      var t := s[from..];
      var u, v := t[k - from..k - from + |pat|], s[k..k + |pat|];
      assert forall m :: 0 <= m < |pat| ==> u[m] == v[m];
      assert u == v;
    }
  }

  /** `s[from..].find(pat)` is the first occurrence at or after `from`, counted from `from`. */
  lemma FindSlice(s: string, pat: string, from: nat)
    requires from <= |s|
    ensures Find(s[from..], pat).Some? <==> FindFrom(s, pat, from).Some?
    ensures Find(s[from..], pat).Some? ==> FindFrom(s, pat, from) == Some(from + Find(s[from..], pat).value)
  {
    var t := s[from..];
    var q := FindFrom(s, pat, from);
    FindSpec(t, pat);
    FindFromSpec(s, pat, from);
    match Find(t, pat)
    case Some(i) =>
      OccursInSuffix(s, pat, from, from + i);
      assert q.Some?;
      OccursInSuffix(s, pat, from, q.value);
      assert q.value == from + i;
    case None =>
      if q.Some? {
        OccursInSuffix(s, pat, from, q.value);
      }
  }

  /** A pattern whose first character never appears in `s` is not found. */
  lemma FindAbsent(s: string, pat: string)
    requires |pat| > 0 && pat[0] !in s
    ensures Find(s, pat) == None
  {
    forall j | 0 <= j <= |s|
      ensures !OccursAt(s, pat, j)
    {
      if j + |pat| <= |s| {
        assert s[j..j + |pat|][0] == s[j] != pat[0];
      }
    }
    FindSpec(s, pat);
  }

  /** When `pat`'s first character appears in `s` only at `k` and `pat` occurs there, it is found at `k`. */
  lemma FindOnlyCandidate(s: string, pat: string, k: nat)
    requires |pat| > 0 && OccursAt(s, pat, k)
    requires forall j :: 0 <= j < k ==> s[j] != pat[0]
    ensures Find(s, pat) == Some(k)
  {
    forall j | 0 <= j < k
      ensures !OccursAt(s, pat, j)
    {
      if j + |pat| <= |s| {
        assert s[j..j + |pat|][0] == s[j] != pat[0];
      }
    }
    FindSpec(s, pat);
    var r := Find(s, pat);
    assert r.Some?;
    assert !(r.value < k);
  }

  /** A prefix of an occurring pattern occurs at the same place, and its rest right after. */
  lemma OccursParts(s: string, pat: string, i: nat, n: nat)
    requires OccursAt(s, pat, i) && n <= |pat|
    ensures OccursAt(s, pat[..n], i) && OccursAt(s, pat[n..], i + n)
  {
    assert s[i..i + n] == s[i..i + |pat|][..n];
    assert s[i + n..i + |pat|] == s[i..i + |pat|][n..];
  }

  /** `str::contains`. */
  predicate Contains(s: string, pat: string)
  {
    Find(s, pat).Some?
  }

  /** A substring contains itself wherever it is embedded. */
  lemma ContainsEmbedded(a: string, pat: string, b: string)
    ensures Contains(a + pat + b, pat)
  {
    assert OccursAt(a + pat + b, pat, |a|);
    FindSpec(a + pat + b, pat);
  }

  /** `str::starts_with`. */
  predicate StartsWith(s: string, prefix: string)
  {
    |prefix| <= |s| && s[..|prefix|] == prefix
  }

  /** A prefix is also a substring. */
  lemma StartsWithImpliesContains(s: string, prefix: string)
    requires StartsWith(s, prefix)
    ensures Contains(s, prefix) && Find(s, prefix) == Some(0)
  {
    assert OccursAt(s, prefix, 0);
    FindSpec(s, prefix);
  }

  /** `str::strip_prefix`. */
  function StripPrefix(s: string, prefix: string): (r: Option<string>)
    ensures r.Some? <==> StartsWith(s, prefix)
    ensures r.Some? ==> prefix + r.value == s
  {
    if StartsWith(s, prefix) then Some(s[|prefix|..]) else None
  }

  // ---------------------------------------------------------------------------
  // Splitting and replacing
  // ---------------------------------------------------------------------------

  /** `str::split(sep)` on a character: every piece, empty ones included. */
  function Split(s: string, sep: char): (r: seq<string>)
    ensures |r| >= 1
    ensures forall i :: 0 <= i < |r| ==> sep !in r[i]
    decreases |s|
  {
    FindSpec(s, [sep]);
    match Find(s, [sep])
    case None =>
      assert sep !in s by {
        forall k | 0 <= k < |s|
          ensures s[k] != sep
        {
          assert !OccursAt(s, [sep], k);
          assert s[k..k + 1] == [s[k]];
        }
      }
      [s]
    case Some(i) =>
      assert sep !in s[..i] by {
        forall k | 0 <= k < i
          ensures s[k] != sep
        {
          assert !OccursAt(s, [sep], k);
          assert s[k..k + 1] == [s[k]];
        }
      }
      [s[..i]] + Split(s[i + 1..], sep)
  }

  /** The pieces joined with `sep` in between. */
  function Join(pieces: seq<string>, sep: char): string
    requires |pieces| >= 1
  {
    if |pieces| == 1 then pieces[0] else pieces[0] + [sep] + Join(pieces[1..], sep)
  }

  /** Splitting loses nothing: joining the pieces back gives the input. */
  lemma {:induction false} SplitJoin(s: string, sep: char)
    ensures Join(Split(s, sep), sep) == s
    decreases |s|
  {
    FindSpec(s, [sep]);
    match Find(s, [sep])
    case None =>
    case Some(i) =>
      SplitJoin(s[i + 1..], sep);
      var r := Split(s, sep);
      assert r[1..] == Split(s[i + 1..], sep);
      assert s[i..i + 1] == [sep];
      assert s == s[..i] + [sep] + s[i + 1..];
  }

  /** `str::replace(from, to)` for a one-character pattern. */
  function ReplaceChar(s: string, from: char, to: string): (r: string)
    ensures from !in to ==> from !in r
    ensures from !in s ==> r == s
  {
    if |s| == 0 then []
    else (if s[0] == from then to else [s[0]]) + ReplaceChar(s[1..], from, to)
  }

  /**
   * `str::replace(pat, to)` for a non-empty pattern: occurrences are found
   * left to right and do not overlap.
   */
  function Replace(s: string, pat: string, to: string): (r: string)
    requires |pat| > 0
    ensures Find(s, pat).None? ==> r == s
    decreases |s|
  {
    if |s| == 0 then []
    else if StartsWith(s, pat) then to + Replace(s[|pat|..], pat, to)
    else
      assert Find(s, pat).None? ==> !OccursAt(s[1..], pat, 0) && Find(s[1..], pat).None? by {
        if Find(s, pat).None? {
          FindSpec(s, pat);
          FindSpec(s[1..], pat);
          forall j | 0 <= j <= |s[1..]|
            ensures !OccursAt(s[1..], pat, j)
          {
            assert !OccursAt(s, pat, j + 1);
            if j + |pat| <= |s| - 1 {
              assert s[1..][j..j + |pat|] == s[j + 1..j + 1 + |pat|];
            }
          }
        }
      }
      [s[0]] + Replace(s[1..], pat, to)
  }

  // ---------------------------------------------------------------------------
  // ASCII case mapping
  // ---------------------------------------------------------------------------

  function UpperChar(c: char): (u: char)
    ensures 'a' <= c <= 'z' ==> u as int == c as int - 32
    ensures !('a' <= c <= 'z') ==> u == c
  {
    if 'a' <= c <= 'z' then (c as int - 32) as char else c
  }

  /** `to_uppercase`, for ASCII letters; every other character is kept. */
  function ToUpper(s: string): (r: string)
    ensures |r| == |s|
  {
    seq(|s|, i requires 0 <= i < |s| => UpperChar(s[i]))
  }

  /** Upper-casing commutes with taking a slice. */
  lemma ToUpperSlice(s: string, i: nat, j: nat)
    requires i <= j <= |s|
    ensures ToUpper(s)[i..j] == ToUpper(s[i..j])
  {
  }

  /** Upper-casing commutes with dropping a prefix. */
  lemma ToUpperSuffix(s: string, i: nat)
    requires i <= |s|
    ensures ToUpper(s)[i..] == ToUpper(s[i..])
  {
  }

  /** Upper-casing works character by character, so it distributes over `+`. */
  lemma ToUpperAppend(a: string, b: string)
    ensures ToUpper(a + b) == ToUpper(a) + ToUpper(b)
  {
    var l, r := ToUpper(a + b), ToUpper(a) + ToUpper(b);
    assert forall i :: 0 <= i < |l| ==> l[i] == r[i];
  }

  /** Text without lower-case ASCII letters is its own upper case. */
  lemma ToUpperNoLower(s: string)
    requires forall i :: 0 <= i < |s| ==> !('a' <= s[i] <= 'z')
    ensures ToUpper(s) == s
  {
    var u := ToUpper(s);
    assert forall i :: 0 <= i < |s| ==> u[i] == s[i];
  }

  function LowerChar(c: char): (l: char)
    ensures 'A' <= c <= 'Z' ==> l as int == c as int + 32
    ensures !('A' <= c <= 'Z') ==> l == c
  {
    if 'A' <= c <= 'Z' then (c as int + 32) as char else c
  }

  /** `to_lowercase`, for ASCII letters; every other character is kept. */
  function ToLower(s: string): (r: string)
    ensures |r| == |s|
  {
    seq(|s|, i requires 0 <= i < |s| => LowerChar(s[i]))
  }

  // ---------------------------------------------------------------------------
  // Decimal integers
  // ---------------------------------------------------------------------------

  predicate IsDigit(c: char)
  {
    '0' <= c <= '9'
  }

  predicate AllDigits(s: string)
  {
    forall k :: 0 <= k < |s| ==> IsDigit(s[k])
  }

  /** The value of a string of decimal digits, most significant first. */
  function DigitsValue(s: string): nat
    requires AllDigits(s)
  {
    if |s| == 0 then 0 else 10 * DigitsValue(s[..|s| - 1]) + (s[|s| - 1] as int - '0' as int)
  }

  /** The decimal form of `n` without leading zeros (`to_string` of an unsigned integer). */
  function Decimal(n: nat): (r: string)
    ensures |r| > 0 && AllDigits(r)
  {
    if n < 10 then [('0' as int + n) as char] else Decimal(n / 10) + [('0' as int + n % 10) as char]
  }

  lemma {:induction false} DecimalValue(n: nat)
    ensures DigitsValue(Decimal(n)) == n
  {
    if n >= 10 {
      DecimalValue(n / 10);
      var d := Decimal(n);
      assert d[..|d| - 1] == Decimal(n / 10);
    }
  }

  /** The digits after an optional leading `+`. */
  function UnsignedDigits(s: string): string
  {
    if |s| > 0 && s[0] == '+' then s[1..] else s
  }

  /**
   * `u64::from_str` (and `usize::from_str` on a 64-bit target): an optional
   * `+`, then one or more decimal digits, with a value below 2^64.
   */
  function ParseU64(s: string): (r: Option<u64>)
    ensures r.Some? <==> |UnsignedDigits(s)| > 0 && AllDigits(UnsignedDigits(s))
                         && DigitsValue(UnsignedDigits(s)) < U64_MODULUS
    ensures r.Some? ==> r.value == DigitsValue(UnsignedDigits(s))
  {
    var ds := UnsignedDigits(s);
    if |ds| == 0 || !AllDigits(ds) then None
    else if DigitsValue(ds) < U64_MODULUS then Some(DigitsValue(ds))
    else None
  }

  /** Printing then parsing gives the number back, with or without a leading `+`. */
  lemma ParseU64Decimal(n: u64)
    ensures ParseU64(Decimal(n)) == Some(n)
    ensures ParseU64("+" + Decimal(n)) == Some(n)
  {
    DecimalValue(n);
    assert UnsignedDigits("+" + Decimal(n)) == Decimal(n);
  }

  /** A string with a character that is neither a digit nor a leading `+` never parses. */
  lemma ParseU64RejectsNonDigits(s: string, k: nat)
    requires k < |s| && !IsDigit(s[k]) && !(k == 0 && s[k] == '+')
    ensures ParseU64(s) == None
  {
    var ds := UnsignedDigits(s);
    if |s| > 0 && s[0] == '+' {
      assert ds[k - 1] == s[k];
    } else {
      assert ds[k] == s[k];
    }
  }

  /** `usize::from_str` on a 64-bit target. */
  function ParseUsize(s: string): (r: Option<nat>)
    ensures r.Some? <==> ParseU64(s).Some?
    ensures r.Some? ==> r.value == ParseU64(s).value
  {
    match ParseU64(s)
    case None => None
    case Some(v) => Some(v)
  }

  const I64_MIN: int := -0x8000_0000_0000_0000
  const I64_MAX: int := 0x7FFF_FFFF_FFFF_FFFF

  type i64 = x: int | -0x8000_0000_0000_0000 <= x <= 0x7FFF_FFFF_FFFF_FFFF

  /**
   * `i64::from_str`: an optional `+` or `-`, then one or more decimal digits,
   * with a value in `[-2^63, 2^63)`.
   */
  function ParseI64(s: string): (r: Option<i64>)
    ensures r.Some? && |s| > 0 && s[0] == '-' ==> r.value <= 0
    ensures r.Some? && !(|s| > 0 && s[0] == '-') ==> ParseU64(s) == Some(r.value)
  {
    var negative := |s| > 0 && s[0] == '-';
    var ds := if |s| > 0 && (s[0] == '-' || s[0] == '+') then s[1..] else s;
    if |ds| == 0 || !AllDigits(ds) then None
    else
      var d: int := DigitsValue(ds);
      var v := if negative then -d else d;
      if I64_MIN <= v <= I64_MAX then Some(v) else None
  }

  /** The decimal form of a signed integer (`to_string` of `i64`). */
  function SignedDecimal(n: int): (r: string)
    ensures |r| > 0
  {
    if n < 0 then "-" + Decimal(-n) else Decimal(n)
  }

  /** Printing then parsing an `i64` gives it back. */
  lemma ParseI64Decimal(n: i64)
    ensures ParseI64(SignedDecimal(n)) == Some(n)
  {
    var text := SignedDecimal(n);
    if n < 0 {
      var m: nat := -(n as int);
      DecimalValue(m);
      assert text == "-" + Decimal(m);
      assert text[1..] == Decimal(m);
    } else {
      DecimalValue(n);
      assert text == Decimal(n);
      assert text[0] != '-' && text[0] != '+' by {
        assert IsDigit(text[0]);
      }
    }
  }
}
