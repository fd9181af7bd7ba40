/**
 * The string primitives the Solaris operating-system layer relies on, modelled on
 * their Java meaning: `String.trim`, `String.startsWith`/`endsWith`/`lastIndexOf`,
 * `String.join`, and splitting on the pattern `\s+` with and without a limit, as
 * `java.util.regex.Pattern.split` does.
 */
module Text {

  /** The characters the regular-expression class `\s` matches: space, tab,
      line feed, vertical tab, form feed and carriage return. */
  predicate IsSpace(c: char) {
    c == ' ' || c == '\t' || c == '\n' || c == '\U{0B}' || c == '\U{0C}' || c == '\r'
  }

  predicate HasNoSpace(s: string) {
    forall k :: 0 <= k < |s| ==> !IsSpace(s[k])
  }

  /** A string `trim` leaves unchanged: empty, or starting and ending above U+0020. */
  predicate IsTrimmed(s: string) {
    |s| == 0 || (s[0] > ' ' && s[|s| - 1] > ' ')
  }

  /** `s.startsWith(p)`. */
  predicate StartsWith(s: string, p: string) {
    p <= s
  }

  /** `s.endsWith(p)`. */
  predicate EndsWith(s: string, p: string) {
    |p| <= |s| && s[|s| - |p|..] == p
  }

  // ---------------------------------------------------------------------------
  // trim

  /** The first index at or after `i` holding a character above U+0020, or `|s|`. */
  function FirstAbove(s: string, i: nat): (j: nat)
    requires i <= |s|
    ensures i <= j <= |s|
    ensures forall k :: i <= k < j ==> s[k] <= ' '
    ensures j < |s| ==> s[j] > ' '
    decreases |s| - i
  {
    if i == |s| || s[i] > ' ' then i else FirstAbove(s, i + 1)
  }

  /** The end of `s[lo..j]` once its trailing characters at or below U+0020 are dropped. */
  function EndAbove(s: string, lo: nat, j: nat): (e: nat)
    requires lo <= j <= |s|
    ensures lo <= e <= j
    ensures forall k :: e <= k < j ==> s[k] <= ' '
    ensures e > lo ==> s[e - 1] > ' '
    decreases j
  {
    if j == lo || s[j - 1] > ' ' then j else EndAbove(s, lo, j - 1)
  }

  /** `r` is `s[start..start + |r|]` and everything of `s` around it is at or below U+0020. */
  ghost predicate IsTrimOf(r: string, s: string, start: int) {
    && 0 <= start && start + |r| <= |s|
    && r == s[start..start + |r|]
    && (forall k :: 0 <= k < start ==> s[k] <= ' ')
    && (forall k :: start + |r| <= k < |s| ==> s[k] <= ' ')
  }

  /** `s.trim()`: the longest slice of `s` that starts and ends above U+0020. */
  function Trim(s: string): (r: string)
    ensures IsTrimmed(r)
    ensures IsTrimOf(r, s, FirstAbove(s, 0))
  {
    var a := FirstAbove(s, 0);
    s[a..EndAbove(s, a, |s|)]
  }

  /** A trimmed string is its own trim. */
  lemma TrimOfTrimmed(s: string)
    requires IsTrimmed(s)
    ensures Trim(s) == s
  {
  }

  /** Trimming an indented, already trimmed text gives the text. */
  lemma TrimAfterIndent(indent: string, body: string)
    requires forall k :: 0 <= k < |indent| ==> indent[k] <= ' '
    requires |body| > 0 && IsTrimmed(body)
    ensures Trim(indent + body) == body
  {
    var s := indent + body;
    assert s[|indent|] == body[0];
    assert forall k :: 0 <= k < |indent| ==> s[k] == indent[k];
    var a := FirstAbove(s, 0);
    assert a == |indent|;
    assert s[|s| - 1] == body[|body| - 1];
    assert EndAbove(s, a, |s|) == |s|;
    assert s[a..|s|] == body;
  }
  /** Trimming twice is trimming once. */
  lemma TrimIdempotent(s: string)
    ensures Trim(Trim(s)) == Trim(s)
  {
    TrimOfTrimmed(Trim(s));
  }

  // ---------------------------------------------------------------------------
  // lastIndexOf

  /** `p` occurs in `s` at index `k`. */
  predicate OccursAt(s: string, p: string, k: int) {
    0 <= k && k + |p| <= |s| && s[k..k + |p|] == p
  }

  /** `s.lastIndexOf(p)` searching leftwards from index `i`. */
  function LastIndexFrom(s: string, p: string, i: int): (r: int)
    requires i <= |s|
    ensures r == -1 || (r <= i && OccursAt(s, p, r))
    ensures forall k :: r < k <= i ==> !OccursAt(s, p, k)
    decreases i + 1
  {
    if i < 0 then -1
    else if OccursAt(s, p, i) then i
    else LastIndexFrom(s, p, i - 1)
  }

  /**
   * `s.lastIndexOf(p)`: the largest index where `p` occurs, or -1 when it occurs
   * nowhere; an empty pattern occurs at `|s|`.
   */
  function LastIndexOf(s: string, p: string): (r: int)
    ensures r == -1 || OccursAt(s, p, r)
    ensures forall k :: OccursAt(s, p, k) ==> k <= r
  {
    LastIndexFrom(s, p, |s|)
  }

  // ---------------------------------------------------------------------------
  // join

  /** `String.join(sep, xs)`. */
  function Join(xs: seq<string>, sep: string): string
    decreases |xs|
  {
    if |xs| == 0 then "" else if |xs| == 1 then xs[0] else xs[0] + sep + Join(xs[1..], sep)
  }

  // ---------------------------------------------------------------------------
  // splitting on \s+

  /** The first index at or after `i` holding a `\s` character, or `|s|`. */
  function SpaceFrom(s: string, i: nat): (j: nat)
    requires i <= |s|
    ensures i <= j <= |s|
    ensures j < |s| ==> IsSpace(s[j])
    decreases |s| - i
  {
    if i == |s| || IsSpace(s[i]) then i else SpaceFrom(s, i + 1)
  }

  /** No space comes before `SpaceFrom`. */
  lemma {:induction false} SpaceFromSpan(s: string, i: nat)
    requires i <= |s|
    ensures forall k :: i <= k < SpaceFrom(s, i) ==> !IsSpace(s[k])
    decreases |s| - i
  {
    if i < |s| && !IsSpace(s[i]) {
      SpaceFromSpan(s, i + 1);
    }
  }

  /** The end of the run of `\s` characters starting at `i`: where a greedy `\s+` match stops. */
  function SpaceRunEnd(s: string, i: nat): (j: nat)
    requires i <= |s|
    ensures i <= j <= |s|
    ensures j < |s| ==> !IsSpace(s[j])
    decreases |s| - i
  {
    if i == |s| || !IsSpace(s[i]) then i else SpaceRunEnd(s, i + 1)
  }

  /** Everything from `i` up to `SpaceRunEnd` is a space. */
  lemma {:induction false} SpaceRunSpan(s: string, i: nat)
    requires i <= |s|
    ensures forall k :: i <= k < SpaceRunEnd(s, i) ==> IsSpace(s[k])
    decreases |s| - i
  {
    if i < |s| && IsSpace(s[i]) {
      SpaceRunSpan(s, i + 1);
    }
  }

  /** `Pattern.split` with a positive limit, applied to `s[i..]`. */
  function SplitLimitFrom(s: string, i: nat, limit: nat): (fields: seq<string>)
    requires i <= |s| && limit >= 1
    ensures 1 <= |fields| <= limit
    decreases |s| - i
  {
    var j := SpaceFrom(s, i);
    if limit == 1 || j == |s| then [s[i..]]
    else [s[i..j]] + SplitLimitFrom(s, SpaceRunEnd(s, j), limit - 1)
  }

  /** Every field but the limit-th is free of spaces. */
  lemma {:induction false} SplitLimitFromFields(s: string, i: nat, limit: nat)
    requires i <= |s| && limit >= 1
    ensures var fields := SplitLimitFrom(s, i, limit);
      && (forall k :: 0 <= k < |fields| - 1 ==> HasNoSpace(fields[k]))
      && (|fields| < limit ==> HasNoSpace(fields[|fields| - 1]))
    decreases |s| - i
  {
    SpaceFromSpan(s, i);
    var j := SpaceFrom(s, i);
    if limit > 1 && j < |s| {
      var next := SpaceRunEnd(s, j);
      SplitLimitFromFields(s, next, limit - 1);
      SplitLimitFromStep(s, i, limit, j, next);
    }
  }

  /**
   * `Pattern.compile("\\s+").split(s, limit)` for a positive limit: at most `limit`
   * fields, the last one the unsplit remainder of the input. A leading run of
   * spaces yields an empty first field, a trailing run an empty last field.
   */
  function SplitLimit(s: string, limit: nat): (fields: seq<string>)
    requires limit >= 1
    ensures 1 <= |fields| <= limit
    ensures forall k :: 0 <= k < |fields| - 1 ==> HasNoSpace(fields[k])
    ensures |fields| < limit ==> HasNoSpace(fields[|fields| - 1])
  {
    SplitLimitFromFields(s, 0, limit);
    SplitLimitFrom(s, 0, limit)
  }

  /** Splitting `s[i..]` at every `\s+` match, keeping empty trailing fields. */
  function SplitAllFrom(s: string, i: nat): (fields: seq<string>)
    requires i <= |s|
    ensures |fields| >= 1
    ensures forall k :: 0 <= k < |fields| ==> HasNoSpace(fields[k])
    ensures i < |s| && !IsSpace(s[i]) ==> fields[0] != ""
    ensures forall k :: 0 < k < |fields| - 1 ==> fields[k] != ""
    decreases |s| - i
  {
    SpaceFromSpan(s, i);
    var j := SpaceFrom(s, i);
    if j == |s| then [s[i..]]
    else [s[i..j]] + SplitAllFrom(s, SpaceRunEnd(s, j))
  }

  /** Removes the empty strings at the end of a field list. */
  function DropTrailingEmpty(fields: seq<string>): (r: seq<string>)
    ensures |r| <= |fields| && r == fields[..|r|]
    ensures forall j :: |r| <= j < |fields| ==> fields[j] == ""
    ensures |r| == 0 || r[|r| - 1] != ""
    decreases |fields|
  {
    if |fields| > 0 && fields[|fields| - 1] == "" then DropTrailingEmpty(fields[..|fields| - 1]) else fields
  }

  /**
   * `Pattern.compile("\\s+").split(s)` (limit 0): an input without any match is
   * returned whole; otherwise it is split at every match and trailing empty fields
   * are dropped, so an input of spaces only gives no field at all.
   */
  function Split(s: string): (fields: seq<string>)
    ensures forall k :: 0 <= k < |fields| ==> HasNoSpace(fields[k])
    ensures forall k :: 0 < k < |fields| ==> fields[k] != ""
  {
    SpaceFromSpan(s, 0);
    if SpaceFrom(s, 0) == |s| then [s] else DropTrailingEmpty(SplitAllFrom(s, 0))
  }

  // ---------------------------------------------------------------------------
  // round trips: fields laid out with runs of whitespace between them

  /** A field a whitespace split can recover whole: non-empty and without `\s`. */
  predicate IsToken(t: string) {
    |t| > 0 && HasNoSpace(t)
  }

  /** A column no trimming or splitting can change: non-empty, every character above U+0020. */
  predicate IsPlain(t: string) {
    |t| > 0 && forall k :: 0 <= k < |t| ==> t[k] > ' '
  }

  /** Every `\s` character is at or below U+0020, so a plain text is a token. */
  lemma PlainIsToken(t: string)
    requires IsPlain(t)
    ensures IsToken(t)
  {
  }

  /** A non-empty run of `\s` characters: what one `\s+` match consumes. */
  predicate IsSpaceRun(w: string) {
    |w| > 0 && forall k :: 0 <= k < |w| ==> IsSpace(w[k])
  }

  predicate AllSpaceRuns(seps: seq<string>) {
    forall j :: 0 <= j < |seps| ==> IsSpaceRun(seps[j])
  }

  /** `xs[0] + seps[0] + xs[1] + ... + xs[|xs| - 1]`: a line as a column-aligned tool prints it. */
  function Interleave(xs: seq<string>, seps: seq<string>): string
    requires |xs| >= 1 && |seps| == |xs| - 1
    decreases |xs|
  {
    if |xs| == 1 then xs[0] else xs[0] + seps[0] + Interleave(xs[1..], seps[1..])
  }

  /**
   * The fields a split with limit `limit` gives back from their interleaving with
   * space runs: tokens, except the last, which may be empty and, when it is the
   * `limit`-th field, may contain spaces as long as it does not start with one.
   */
  predicate IsSplitLimitFields(xs: seq<string>, limit: nat) {
    && 1 <= |xs| <= limit
    && (forall j :: 0 <= j < |xs| - 1 ==> IsToken(xs[j]))
    && (if |xs| == limit then |xs[|xs| - 1]| == 0 || !IsSpace(xs[|xs| - 1][0])
        else HasNoSpace(xs[|xs| - 1]))
  }

  lemma InterleaveStartsWithFirst(xs: seq<string>, seps: seq<string>)
    requires |xs| >= 1 && |seps| == |xs| - 1
    ensures xs[0] <= Interleave(xs, seps)
  {
  }

  lemma {:induction false} InterleaveEndsWithLast(xs: seq<string>, seps: seq<string>)
    requires |xs| >= 1 && |seps| == |xs| - 1
    ensures EndsWith(Interleave(xs, seps), xs[|xs| - 1])
    decreases |xs|
  {
    if |xs| > 1 {
      InterleaveEndsWithLast(xs[1..], seps[1..]);
    }
  }

  /** `SpaceFrom` is the first space at or after `i`, wherever that is shown to be. */
  lemma {:induction false} SpaceFromAt(s: string, i: nat, j: nat)
    requires i <= j <= |s|
    requires forall k :: i <= k < j ==> !IsSpace(s[k])
    requires j < |s| ==> IsSpace(s[j])
    ensures SpaceFrom(s, i) == j
    decreases j - i
  {
    if i < j {
      SpaceFromAt(s, i + 1, j);
    }
  }

  /** `SpaceRunEnd` is the first non-space at or after `i`. */
  lemma {:induction false} SpaceRunEndAt(s: string, i: nat, j: nat)
    requires i <= j <= |s|
    requires forall k :: i <= k < j ==> IsSpace(s[k])
    requires j < |s| ==> !IsSpace(s[j])
    ensures SpaceRunEnd(s, i) == j
    decreases j - i
  {
    if i < j {
      SpaceRunEndAt(s, i + 1, j);
    }
  }

  /** Where `s[i..]` starts with a token and a run of spaces, the split cuts exactly there. */
  lemma TokenThenRun(s: string, i: nat, t: string, w: string, rest: string)
    requires i <= |s| && s[i..] == t + w + rest
    requires IsToken(t) && IsSpaceRun(w)
    requires |rest| == 0 || !IsSpace(rest[0])
    ensures SpaceFrom(s, i) == i + |t|
    ensures s[i..i + |t|] == t
    ensures SpaceRunEnd(s, i + |t|) == i + |t| + |w|
    ensures s[i + |t| + |w|..] == rest
  {
    assert t + w + rest == t + (w + rest);
    FieldAt(s, i, t, w + rest);
    RunAt(s, i + |t|, w, rest);
  }

  /** A field without spaces followed by a space ends where the space starts. */
  lemma FieldAt(s: string, i: nat, t: string, tail: string)
    requires i <= |s| && s[i..] == t + tail
    requires HasNoSpace(t) && |tail| > 0 && IsSpace(tail[0])
    ensures SpaceFrom(s, i) == i + |t|
    ensures s[i..i + |t|] == t && s[i + |t|..] == tail
  {
    var u := s[i..];
    assert forall k :: i <= k < i + |t| ==> s[k] == u[k - i] == t[k - i];
    assert s[i + |t|] == u[|t|] == tail[0];
    SpaceFromAt(s, i, i + |t|);
    assert s[i..i + |t|] == u[..|t|];
    assert s[i + |t|..] == u[|t|..];
  }

  /** A run of spaces followed by a non-space ends where the non-space starts. */
  lemma RunAt(s: string, j: nat, w: string, rest: string)
    requires j <= |s| && s[j..] == w + rest
    requires IsSpaceRun(w) && (|rest| == 0 || !IsSpace(rest[0]))
    ensures SpaceRunEnd(s, j) == j + |w|
    ensures s[j + |w|..] == rest
  {
    var u := s[j..];
    assert forall k :: j <= k < j + |w| ==> s[k] == u[k - j] == w[k - j];
    assert j + |w| < |s| ==> s[j + |w|] == u[|w|] == rest[0];
    SpaceRunEndAt(s, j, j + |w|);
    assert s[j + |w|..] == u[|w|..];
  }

  /** A token alone: nothing to split. */
  lemma TokenAlone(s: string, i: nat)
    requires i <= |s| && HasNoSpace(s[i..])
    ensures SpaceFrom(s, i) == |s|
  {
    assert forall k :: i <= k < |s| ==> s[k] == s[i..][k - i];
  }

  /** The next field after a token and a run of spaces does not start with a space. */
  lemma InterleaveTailStart(xs: seq<string>, seps: seq<string>)
    requires |xs| >= 2 && |seps| == |xs| - 1
    requires IsToken(xs[1]) || (|xs| == 2 && (|xs[1]| == 0 || !IsSpace(xs[1][0])))
    ensures var rest := Interleave(xs[1..], seps[1..]); |rest| == 0 || !IsSpace(rest[0])
  {
    InterleaveStartsWithFirst(xs[1..], seps[1..]);
  }

  lemma SplitLimitFieldsTail(xs: seq<string>, limit: nat)
    requires IsSplitLimitFields(xs, limit) && |xs| >= 2
    ensures IsSplitLimitFields(xs[1..], limit - 1)
    ensures IsToken(xs[0])
    ensures IsToken(xs[1]) || (|xs| == 2 && (|xs[1]| == 0 || !IsSpace(xs[1][0])))
  {
    if |xs| == 2 && limit > 2 {
      assert xs[1] == xs[|xs| - 1];
      if |xs[1]| > 0 {
        assert !IsSpace(xs[1][0]);
      }
    }
  }

  lemma SpaceRunsTail(seps: seq<string>)
    requires AllSpaceRuns(seps) && |seps| >= 1
    ensures AllSpaceRuns(seps[1..]) && IsSpaceRun(seps[0])
  {
    assert forall j :: 0 <= j < |seps| - 1 ==> seps[1..][j] == seps[j + 1];
  }

  lemma InterleaveSingle(xs: seq<string>, seps: seq<string>)
    requires |xs| == 1 && |seps| == 0
    ensures Interleave(xs, seps) == xs[0]
  {
  }

  /** Peeling the first field and its separator off an interleaving inside `s`. */
  lemma InterleavePeel(s: string, i: nat, xs: seq<string>, seps: seq<string>)
    requires |xs| >= 2 && |seps| == |xs| - 1 && IsToken(xs[0]) && IsSpaceRun(seps[0])
    requires IsToken(xs[1]) || (|xs| == 2 && (|xs[1]| == 0 || !IsSpace(xs[1][0])))
    requires i <= |s| && s[i..] == Interleave(xs, seps)
    ensures i + |xs[0]| < i + |xs[0]| + |seps[0]| <= |s|
    ensures SpaceFrom(s, i) == i + |xs[0]| && s[i..i + |xs[0]|] == xs[0]
    ensures SpaceRunEnd(s, i + |xs[0]|) == i + |xs[0]| + |seps[0]|
    ensures s[i + |xs[0]| + |seps[0]|..] == Interleave(xs[1..], seps[1..])
  {
    var rest := Interleave(xs[1..], seps[1..]);
    InterleaveTailStart(xs, seps);
    assert s[i..] == xs[0] + seps[0] + rest;
    TokenThenRun(s, i, xs[0], seps[0], rest);
  }

  /** Where the scan for a space starts inside a suffix: `SpaceFrom` only looks at `s[i..]`. */
  lemma {:induction false} SpaceFromShift(s: string, i: nat, k: nat)
    requires i + k <= |s|
    ensures SpaceFrom(s, i + k) == i + SpaceFrom(s[i..], k)
    decreases |s| - i - k
  {
    if i + k < |s| {
      assert s[i..][k] == s[i + k];
      if !IsSpace(s[i + k]) {
        SpaceFromShift(s, i, k + 1);
      }
    }
  }

  /** Likewise for the end of a run of spaces. */
  lemma {:induction false} SpaceRunEndShift(s: string, i: nat, k: nat)
    requires i + k <= |s|
    ensures SpaceRunEnd(s, i + k) == i + SpaceRunEnd(s[i..], k)
    decreases |s| - i - k
  {
    if i + k < |s| {
      assert s[i..][k] == s[i + k];
      if IsSpace(s[i + k]) {
        SpaceRunEndShift(s, i, k + 1);
      }
    }
  }

  /** The limited split from `i + k` only looks at `s[i..]`. */
  lemma {:induction false} SplitLimitShift(s: string, i: nat, k: nat, limit: nat)
    requires i + k <= |s| && limit >= 1
    ensures SplitLimitFrom(s, i + k, limit) == SplitLimitFrom(s[i..], k, limit)
    decreases |s| - i - k, 1
  {
    if limit > 1 && SpaceFrom(s[i..], k) < |s| - i {
      SplitLimitShiftMany(s, i, k, limit);
    } else {
      SplitLimitShiftLast(s, i, k, limit);
    }
  }

  /** The shift when a field and a run of spaces come first: by induction on the rest. */
  lemma {:induction false} SplitLimitShiftMany(s: string, i: nat, k: nat, limit: nat)
    requires i + k <= |s| && limit > 1 && SpaceFrom(s[i..], k) < |s| - i
    ensures SplitLimitFrom(s, i + k, limit) == SplitLimitFrom(s[i..], k, limit)
    decreases |s| - i - k, 0
  {
    var next := SplitLimitShiftNext(s, i, k, limit);
    SplitLimitShift(s, i, next, limit - 1);
  }

  /** The shift when the rest is one last field. */
  lemma SplitLimitShiftLast(s: string, i: nat, k: nat, limit: nat)
    requires i + k <= |s| && limit >= 1
    requires limit == 1 || SpaceFrom(s[i..], k) == |s| - i
    ensures SplitLimitFrom(s, i + k, limit) == SplitLimitFrom(s[i..], k, limit)
  {
    var t := s[i..];
    SpaceFromShift(s, i, k);
    assert s[i + k..] == t[k..];
    assert SplitLimitFrom(t, k, limit) == [t[k..]];
    assert SplitLimitFrom(s, i + k, limit) == [s[i + k..]];
  }

  /** One step of the shift: where the next field starts, and that the rest decides the whole. */
  lemma SplitLimitShiftNext(s: string, i: nat, k: nat, limit: nat) returns (next: nat)
    requires i + k <= |s| && limit > 1 && SpaceFrom(s[i..], k) < |s| - i
    ensures k < next && i + next <= |s|
    ensures SplitLimitFrom(s, i + next, limit - 1) == SplitLimitFrom(s[i..], next, limit - 1)
        ==> SplitLimitFrom(s, i + k, limit) == SplitLimitFrom(s[i..], k, limit)
  {
    var t := s[i..];
    SpaceFromShift(s, i, k);
    var j := SpaceFrom(t, k);
    SpaceRunEndShift(s, i, j);
    next := SpaceRunEnd(t, j);
    SliceOfSuffix(s, i, k, j);
    SplitLimitFromStep(s, i + k, limit, i + j, i + next);
    SplitLimitFromStep(t, k, limit, j, next);
  }

  /** A slice of a suffix is the slice of the whole, shifted by where the suffix starts. */
  lemma SliceOfSuffix(s: string, i: nat, a: nat, b: nat)
    requires i + a <= i + b <= |s|
    ensures s[i + a..i + b] == s[i..][a..b]
  {
  }

  /** Splitting `s` from `i` is splitting the suffix that starts there. */
  lemma SplitLimitSuffix(s: string, i: nat, rest: string, limit: nat)
    requires i <= |s| && s[i..] == rest && limit >= 1
    ensures SplitLimitFrom(s, i, limit) == SplitLimit(rest, limit)
  {
    SplitLimitShift(s, i, 0, limit);
  }

  /**
   * Interleaving fields with space runs and splitting again with limit `limit`
   * gives the fields back; when there are `limit` of them the last comes back
   * whole, spaces included.
   */
  lemma {:induction false} SplitLimitInterleave(xs: seq<string>, seps: seq<string>, limit: nat)
    requires IsSplitLimitFields(xs, limit) && |seps| == |xs| - 1 && AllSpaceRuns(seps)
    ensures SplitLimit(Interleave(xs, seps), limit) == xs
    decreases |xs|
  {
    if |xs| > 1 {
      SplitLimitInterleaveStep(xs, seps, limit);
      SplitLimitInterleave(xs[1..], seps[1..], limit - 1);
    } else {
      InterleaveSingle(xs, seps);
      SplitLimitSingle(Interleave(xs, seps), 0, xs[0], limit);
    }
  }

  /**
   * The inductive step of the limited round trip: the first field comes off, and
   * the rest of the line splits into the remaining fields when they round-trip.
   */
  lemma SplitLimitInterleaveStep(xs: seq<string>, seps: seq<string>, limit: nat)
    requires IsSplitLimitFields(xs, limit) && |seps| == |xs| - 1 && AllSpaceRuns(seps) && |xs| > 1
    ensures limit >= 2 && |seps| >= 1
    ensures IsSplitLimitFields(xs[1..], limit - 1) && AllSpaceRuns(seps[1..])
    ensures SplitLimit(Interleave(xs[1..], seps[1..]), limit - 1) == xs[1..]
        ==> SplitLimit(Interleave(xs, seps), limit) == xs
  {
    SplitLimitFieldsTail(xs, limit);
    SpaceRunsTail(seps);
    InterleaveTailStart(xs, seps);
    SplitLimitCut(xs[0], seps[0], Interleave(xs[1..], seps[1..]), limit);
    assert xs == [xs[0]] + xs[1..];
  }

  /** A token and a run of spaces at the front of a line come off as its first field. */
  lemma SplitLimitCut(x: string, w: string, rest: string, limit: nat)
    requires IsToken(x) && IsSpaceRun(w) && (|rest| == 0 || !IsSpace(rest[0])) && limit >= 2
    ensures SplitLimit(x + w + rest, limit) == [x] + SplitLimit(rest, limit - 1)
  {
    var t := x + w + rest;
    assert t[0..] == t;
    TokenThenRun(t, 0, x, w, rest);
    SplitLimitCutAt(t, |x|, |x| + |w|, limit);
  }

  /** The first field of a limited split, then a limited split of what follows its run of spaces. */
  lemma SplitLimitCutAt(t: string, j: nat, next: nat, limit: nat)
    requires j == SpaceFrom(t, 0) && j < |t| && next == SpaceRunEnd(t, j) && limit >= 2
    ensures SplitLimit(t, limit) == [t[0..j]] + SplitLimit(t[next..], limit - 1)
  {
    SplitLimitSuffix(t, next, t[next..], limit - 1);
    SplitLimitFromStep(t, 0, limit, j, next);
  }

  /** A field that is all of `s[i..]` is all a limited split of it gives. */
  lemma SplitLimitSingle(s: string, i: nat, x: string, limit: nat)
    requires i <= |s| && s[i..] == x && limit >= 1
    requires limit > 1 ==> HasNoSpace(x)
    ensures SplitLimitFrom(s, i, limit) == [x]
  {
    if limit > 1 {
      TokenAlone(s, i);
    }
  }

  /** One step of the limited split: the field up to the first space, then the rest. */
  lemma SplitLimitFromStep(s: string, i: nat, limit: nat, j: nat, next: nat)
    requires i <= |s| && limit > 1
    requires j == SpaceFrom(s, i) && j < |s| && next == SpaceRunEnd(s, j)
    ensures SplitLimitFrom(s, i, limit) == [s[i..j]] + SplitLimitFrom(s, next, limit - 1)
  {
  }

  /** One step of the unlimited split. */
  lemma SplitAllFromStep(s: string, i: nat, j: nat, next: nat)
    requires i <= |s|
    requires j == SpaceFrom(s, i) && j < |s| && next == SpaceRunEnd(s, j)
    ensures SplitAllFrom(s, i) == [s[i..j]] + SplitAllFrom(s, next)
  {
  }

  /** Same round trip without a limit, for fields that are all tokens. */
  lemma {:induction false} SplitAllInterleaveFrom(s: string, i: nat, xs: seq<string>, seps: seq<string>)
    requires |xs| >= 1 && (forall j :: 0 <= j < |xs| ==> IsToken(xs[j]))
    requires |seps| == |xs| - 1 && AllSpaceRuns(seps)
    requires i <= |s| && s[i..] == Interleave(xs, seps)
    ensures SplitAllFrom(s, i) == xs
    decreases |xs|
  {
    if |xs| == 1 {
      InterleaveSingle(xs, seps);
      SplitAllSingle(s, i, xs[0]);
      assert SplitAllFrom(s, i) == xs;
    } else {
      var next := SplitAllInterleaveNext(s, i, xs, seps);
      SplitAllInterleaveFrom(s, next, xs[1..], seps[1..]);
    }
  }

  /** The inductive step of the unlimited round trip. */
  lemma SplitAllInterleaveNext(s: string, i: nat, xs: seq<string>, seps: seq<string>) returns (next: nat)
    requires |xs| > 1 && (forall j :: 0 <= j < |xs| ==> IsToken(xs[j]))
    requires |seps| == |xs| - 1 && AllSpaceRuns(seps)
    requires i <= |s| && s[i..] == Interleave(xs, seps)
    ensures (forall j :: 0 <= j < |xs| - 1 ==> IsToken(xs[1..][j])) && AllSpaceRuns(seps[1..])
    ensures next <= |s| && s[next..] == Interleave(xs[1..], seps[1..])
    ensures SplitAllFrom(s, next) == xs[1..] ==> SplitAllFrom(s, i) == xs
  {
    SpaceRunsTail(seps);
    assert forall j :: 0 <= j < |xs| - 1 ==> xs[1..][j] == xs[j + 1];
    InterleavePeel(s, i, xs, seps);
    next := i + |xs[0]| + |seps[0]|;
    if SplitAllFrom(s, next) == xs[1..] {
      SplitAllCons(s, i, i + |xs[0]|, next, xs);
    }
  }

  /** Splitting from the first space on: the first field, then the rest. */
  lemma SplitAllCons(s: string, i: nat, j: nat, next: nat, xs: seq<string>)
    requires i <= |s| && |xs| >= 1
    requires j == SpaceFrom(s, i) && j < |s| && next == SpaceRunEnd(s, j)
    requires s[i..j] == xs[0] && SplitAllFrom(s, next) == xs[1..]
    ensures SplitAllFrom(s, i) == xs
  {
    SplitAllFromStep(s, i, j, next);
    assert xs == [xs[0]] + xs[1..];
  }

  /** The base case of the unlimited round trip: a rest without spaces is one field. */
  lemma SplitAllSingle(s: string, i: nat, x: string)
    requires i <= |s| && s[i..] == x && HasNoSpace(x)
    ensures SplitAllFrom(s, i) == [x]
  {
    TokenAlone(s, i);
  }

  /** The unlimited split recovers tokens laid out with runs of spaces. */
  lemma SplitInterleave(xs: seq<string>, seps: seq<string>)
    requires |xs| >= 1 && (forall j :: 0 <= j < |xs| ==> IsToken(xs[j]))
    requires |seps| == |xs| - 1 && AllSpaceRuns(seps)
    ensures Split(Interleave(xs, seps)) == xs
  {
    var s := Interleave(xs, seps);
    SplitAllInterleaveFrom(s, 0, xs, seps);
    assert xs[|xs| - 1] != "";
    if SpaceFrom(s, 0) == |s| {
      assert SplitAllFrom(s, 0) == [s[0..]];
    }
  }

  // ---------------------------------------------------------------------------
  // blank input

  /** Every character of `s` is `\s`. */
  predicate IsBlank(s: string) {
    forall k :: 0 <= k < |s| ==> IsSpace(s[k])
  }

  /** A non-space character at or after `i` ends up inside some non-empty field. */
  lemma {:induction false} SplitAllFromKeeps(s: string, i: nat, k: nat) returns (f: nat)
    requires i <= k < |s| && !IsSpace(s[k])
    ensures f < |SplitAllFrom(s, i)| && SplitAllFrom(s, i)[f] != ""
    decreases |s| - i
  {
    var j := SpaceFrom(s, i);
    if j == |s| {
      assert SplitAllFrom(s, i) == [s[i..]];
      assert s[i..][k - i] == s[k];
      f := 0;
    } else if k < j {
      assert SplitAllFrom(s, i)[0] == s[i..j];
      assert s[i..j][k - i] == s[k];
      f := 0;
    } else {
      var next := SpaceRunEnd(s, j);
      SpaceRunSpan(s, j);
      assert next <= k;
      var g := SplitAllFromKeeps(s, next, k);
      SplitAllFromStep(s, i, j, next);
      f := g + 1;
    }
  }

  /**
   * The unlimited split gives no field at all exactly when the input is non-empty
   * and blank: the empty input comes back as one empty field, and any other
   * character survives in some field.
   */
  lemma SplitEmptyIffBlank(s: string)
    ensures Split(s) == [] <==> |s| > 0 && IsBlank(s)
  {
    if |s| > 0 && IsBlank(s) {
      SpaceFromAt(s, 0, 0);
      SpaceRunEndAt(s, 0, |s|);
      SplitAllFromStep(s, 0, 0, |s|);
      SpaceFromAt(s, |s|, |s|);
      assert s[|s|..] == "";
      assert SplitAllFrom(s, |s|) == [""];
      assert s[0..0] == "";
      assert SplitAllFrom(s, 0) == ["", ""];
      assert DropTrailingEmpty(["", ""]) == DropTrailingEmpty([""]) == DropTrailingEmpty([]);
    } else if |s| > 0 && SpaceFrom(s, 0) < |s| {
      var k :| 0 <= k < |s| && !IsSpace(s[k]);
      var f := SplitAllFromKeeps(s, 0, k);
      var fields := SplitAllFrom(s, 0);
      var r := DropTrailingEmpty(fields);
      assert f < |r|;
    }
  }

  // ---------------------------------------------------------------------------
  // splitting on one character

  /** The first index at or after `i` holding `c`, or `|s|`. */
  function CharFrom(s: string, c: char, i: nat): (j: nat)
    requires i <= |s|
    ensures i <= j <= |s|
    ensures forall k :: i <= k < j ==> s[k] != c
    ensures j < |s| ==> s[j] == c
    decreases |s| - i
  {
    if i == |s| || s[i] == c then i else CharFrom(s, c, i + 1)
  }

  /** The pieces of `s[i..]` between occurrences of `c`, empty pieces included. */
  function SplitCharFrom(s: string, c: char, i: nat): (pieces: seq<string>)
    requires i <= |s|
    ensures |pieces| >= 1
    decreases |s| - i
  {
    var j := CharFrom(s, c, i);
    if j == |s| then [s[i..]] else [s[i..j]] + SplitCharFrom(s, c, j + 1)
  }

  /** The pieces of `s` between occurrences of `c`. */
  function SplitOnChar(s: string, c: char): seq<string> {
    SplitCharFrom(s, c, 0)
  }

  /** `c` occurs nowhere in `t`. */
  predicate Avoids(t: string, c: char) {
    forall k :: 0 <= k < |t| ==> t[k] != c
  }

  lemma {:induction false} CharFromAt(s: string, c: char, i: nat, j: nat)
    requires i <= j <= |s|
    requires forall k :: i <= k < j ==> s[k] != c
    requires j < |s| ==> s[j] == c
    ensures CharFrom(s, c, i) == j
    decreases j - i
  {
    if i < j {
      CharFromAt(s, c, i + 1, j);
    }
  }

  /** Peeling the first piece and its separator off a join inside `s`. */
  lemma JoinPeel(s: string, c: char, i: nat, xs: seq<string>)
    requires |xs| >= 2 && Avoids(xs[0], c)
    requires i <= |s| && s[i..] == Join(xs, [c])
    ensures i + |xs[0]| < |s|
    ensures CharFrom(s, c, i) == i + |xs[0]| && s[i..i + |xs[0]|] == xs[0]
    ensures s[i + |xs[0]| + 1..] == Join(xs[1..], [c])
  {
    var j := i + |xs[0]|;
    var rest := Join(xs[1..], [c]);
    assert s[i..] == xs[0] + [c] + rest;
    assert forall k :: i <= k < j ==> s[k] == s[i..][k - i] == xs[0][k - i];
    assert s[j] == s[i..][|xs[0]|] == c;
    CharFromAt(s, c, i, j);
    assert s[i..j] == s[i..][..|xs[0]|];
    assert s[j + 1..] == s[i..][|xs[0]| + 1..];
  }

  /** The inductive step of the character split: the first piece, then the rest. */
  lemma SplitCharCons(s: string, c: char, i: nat, j: nat, xs: seq<string>)
    requires i <= |s| && |xs| >= 1
    requires j == CharFrom(s, c, i) && j < |s|
    requires s[i..j] == xs[0] && SplitCharFrom(s, c, j + 1) == xs[1..]
    ensures SplitCharFrom(s, c, i) == xs
  {
    assert xs == [xs[0]] + xs[1..];
  }

  lemma {:induction false} SplitCharJoinFrom(s: string, c: char, i: nat, xs: seq<string>)
    requires |xs| >= 1 && (forall j :: 0 <= j < |xs| ==> Avoids(xs[j], c))
    requires i <= |s| && s[i..] == Join(xs, [c])
    ensures SplitCharFrom(s, c, i) == xs
    decreases |xs|
  {
    if |xs| == 1 {
      assert s[i..] == xs[0];
      assert forall k :: i <= k < |s| ==> s[k] == s[i..][k - i];
      CharFromAt(s, c, i, |s|);
    } else {
      JoinPeel(s, c, i, xs);
      assert forall j :: 0 <= j < |xs| - 1 ==> xs[1..][j] == xs[j + 1];
      SplitCharJoinFrom(s, c, i + |xs[0]| + 1, xs[1..]);
      SplitCharCons(s, c, i, i + |xs[0]|, xs);
    }
  }

  /**
   * Splitting a join at its separator character gives the pieces back, when no
   * piece contains that character.
   */
  lemma SplitOnCharJoin(xs: seq<string>, c: char)
    requires |xs| >= 1 && (forall j :: 0 <= j < |xs| ==> Avoids(xs[j], c))
    ensures SplitOnChar(Join(xs, [c]), c) == xs
  {
    SplitCharJoinFrom(Join(xs, [c]), c, 0, xs);
  }
}
