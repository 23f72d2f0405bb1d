/**
 * Knuth-Morris-Pratt search with its border table, and the skip search that moves by
 * a bad-character rule. A text is a sequence of signed 8-bit characters.
 */
module StringSearch {
  import opened Options

  type Char = c: int | -128 <= c < 128
  type Text = seq<Char>

  predicate OccursAt(src: Text, pat: Text, p: int) {
    0 <= p <= |src| - |pat| && src[p..p + |pat|] == pat
  }

  /** What a search promises: the first occurrence, or None exactly when there is none. */
  ghost predicate IsFirst(src: Text, pat: Text, r: Option<nat>) {
    match r
    case None => forall p :: !OccursAt(src, pat, p)
    case Some(first) => OccursAt(src, pat, first) && forall p :: p < first ==> !OccursAt(src, pat, p)
  }

  lemma FirstIsUnique(src: Text, pat: Text, r: Option<nat>, s: Option<nat>)
    requires IsFirst(src, pat, r) && IsFirst(src, pat, s)
    ensures r == s
  {
    assert r.Some? && s.Some? ==> !(r.value < s.value) && !(s.value < r.value);
  }

  lemma OccurrenceAgrees(src: Text, pat: Text, p: int, d: nat)
    requires d < |pat|
    ensures OccursAt(src, pat, p) ==> src[p + d] == pat[d]
  {
    if OccursAt(src, pat, p) {
      assert src[p..p + |pat|][d] == src[p + d];
    }
  }

  // ----- Borders -----

  /** k is the length of a proper border of the first n characters. */
  predicate Border(pat: Text, n: nat, k: int)
    requires n <= |pat|
  {
    0 <= k < n && pat[..k] == pat[n - k..n]
  }

  ghost predicate LongestBorder(pat: Text, n: nat, k: int)
    requires n <= |pat|
  {
    Border(pat, n, k) && forall m :: Border(pat, n, m) ==> m <= k
  }

  /** The shorter of two borders is a border of the longer one. */
  lemma BorderOfBorder(pat: Text, n: nat, a: nat, b: nat)
    requires n <= |pat| && b < a && Border(pat, n, a) && Border(pat, n, b)
    ensures Border(pat, a, b)
  {
    assert pat[n - b..n] == pat[n - a..n][a - b..] == pat[..a][a - b..] == pat[a - b..a];
  }

  lemma BorderTransitive(pat: Text, n: nat, a: nat, b: nat)
    requires n <= |pat| && Border(pat, n, a) && Border(pat, a, b)
    ensures Border(pat, n, b)
  {
    assert pat[n - b..n] == pat[n - a..n][a - b..] == pat[..a][a - b..] == pat[a - b..a];
  }

  /** A border grows by one character exactly when that character continues it. */
  lemma BorderExtends(pat: Text, n: nat, k: nat)
    requires 0 < n < |pat| && k < n
    ensures Border(pat, n + 1, k + 1) <==> Border(pat, n, k) && pat[k] == pat[n]
  {
    assert pat[..k + 1] == pat[..k] + [pat[k]];
    assert pat[n - k..n + 1] == pat[n - k..n] + [pat[n]];
  }

  /** Every border of the first n characters above `index` fails to continue with pat[n]. */
  ghost predicate NoLongerContinues(pat: Text, n: nat, index: int)
    requires n < |pat|
  {
    forall m {:trigger Border(pat, n, m)} :: Border(pat, n, m) && m > index ==> pat[m] != pat[n]
  }

  lemma FallBack(pat: Text, n: nat, index: nat, next: int)
    requires 0 < index < n < |pat| && Border(pat, n, index) && NoLongerContinues(pat, n, index)
    requires pat[index] != pat[n] && LongestBorder(pat, index, next)
    ensures Border(pat, n, next) && NoLongerContinues(pat, n, next)
  {
    BorderTransitive(pat, n, index, next);
    forall m | Border(pat, n, m) && m > next
      ensures pat[m] != pat[n]
    {
      if m < index {
        BorderOfBorder(pat, n, index, m);
      }
    }
  }

  lemma TableEntry(pat: Text, n: nat, index: nat)
    requires 0 < n < |pat| && Border(pat, n, index) && NoLongerContinues(pat, n, index)
    requires index == 0 || pat[index] == pat[n]
    ensures LongestBorder(pat, n + 1, if pat[index] == pat[n] then index + 1 else 0)
  {
    BorderExtends(pat, n, index);
    var n1 := n + 1;
    forall m {:trigger Border(pat, n1, m)} | Border(pat, n1, m) && m > 0
      ensures pat[index] == pat[n] && m <= index + 1
    {
      BorderExtends(pat, n, m - 1);
    }
  }

  ghost predicate IsTable(pat: Text, tb: seq<int>) {
    |tb| <= |pat| && forall i {:trigger tb[i]} :: 0 <= i < |tb| ==> LongestBorder(pat, i + 1, tb[i])
  }

  method CreateStringTable(pat: Text, tb: array<int>)
    requires 0 < |pat| == tb.Length
    modifies tb
    ensures IsTable(pat, tb[..])
  {
    hide LongestBorder, Border, NoLongerContinues;
    tb[0] := 0;
    FirstEntry(pat);
    var i := 1;
    while i < |pat|
      invariant 1 <= i <= |pat| && IsTable(pat, tb[..i])
    {
      var index := tb[i - 1];
      EntryIsBorder(pat, tb[..i], i - 1);
      NothingLonger(pat, i, index);
      while index >= 1 && pat[i] != pat[index]
        invariant IsTable(pat, tb[..i]) && 0 <= index < i && Border(pat, i, index) && NoLongerContinues(pat, i, index)
        decreases index
      {
        EntryIsBorder(pat, tb[..i], index - 1);
        FallBack(pat, i, index, tb[index - 1]);
        index := tb[index - 1];
      }
      TableEntry(pat, i, index);
      if pat[i] == pat[index] {
        tb[i] := index + 1;
      } else {
        tb[i] := 0;
      }
      assert tb[..i + 1] == tb[..i] + [tb[i]];
      i := i + 1;
    }
    assert tb[..] == tb[..i];
  }

  lemma FirstEntry(pat: Text)
    requires |pat| > 0
    ensures LongestBorder(pat, 1, 0)
  {
  }

  lemma EntryIsBorder(pat: Text, tb: seq<int>, i: nat)
    requires IsTable(pat, tb) && i < |tb|
    ensures LongestBorder(pat, i + 1, tb[i]) && Border(pat, i + 1, tb[i]) && 0 <= tb[i] <= i
  {
  }

  lemma NothingLonger(pat: Text, n: nat, k: int)
    requires n < |pat| && LongestBorder(pat, n, k)
    ensures NoLongerContinues(pat, n, k)
  {
  }

  // ----- The scan -----

  /** j characters of the pattern end just before i, and no occurrence starts before them. */
  ghost predicate Scanned(src: Text, pat: Text, i: nat, j: nat) {
    && j <= |pat| && j <= i <= |src| && src[i - j..i] == pat[..j]
    && forall p :: p < i - j ==> !OccursAt(src, pat, p)
  }

  lemma ScanMatches(src: Text, pat: Text, i: nat, j: nat)
    requires Scanned(src, pat, i, j) && i < |src| && j < |pat| && src[i] == pat[j]
    ensures Scanned(src, pat, i + 1, j + 1)
  {
    assert src[i - j..i + 1] == src[i - j..i] + [src[i]] == pat[..j + 1];
  }

  lemma ScanFallsBack(src: Text, pat: Text, i: nat, j: nat, next: int)
    requires Scanned(src, pat, i, j) && i < |src| && 0 < j < |pat| && src[i] != pat[j]
    requires LongestBorder(pat, j, next)
    ensures Scanned(src, pat, i, next)
  {
    assert src[i - next..i] == src[i - j..i][j - next..] == pat[..j][j - next..] == pat[j - next..j];
    forall p | i - j <= p < i - next
      ensures !OccursAt(src, pat, p)
    {
      OccurrenceAgrees(src, pat, i - j, j);
      OccurrenceGivesBorder(src, pat, i, j, p);
    }
  }

  /** An occurrence that starts within the matched part makes a border of it. */
  lemma OccurrenceGivesBorder(src: Text, pat: Text, i: nat, j: nat, p: int)
    requires Scanned(src, pat, i, j) && i - j <= p < i && j < |pat|
    ensures OccursAt(src, pat, p) && i - j < p ==> Border(pat, j, i - p)
  {
    if OccursAt(src, pat, p) && i - j < p {
      var k := i - p;
      assert src[p..i] == src[p..p + |pat|][..k] == pat[..k];
      assert src[p..i] == src[i - j..i][j - k..] == pat[..j][j - k..] == pat[j - k..j];
    }
  }

  lemma ScanMovesOn(src: Text, pat: Text, i: nat)
    requires Scanned(src, pat, i, 0) && i < |src| && |pat| > 0 && src[i] != pat[0]
    ensures Scanned(src, pat, i + 1, 0)
  {
    OccurrenceAgrees(src, pat, i, 0);
  }

  /**
   * The scan returns the first occurrence; `steps` counts the iterations of its loop, each of which goes on by one
   * character at most.
   * `flag` is set exactly while part of the pattern is matched.
   */
  method KmpSearchString(src: Text, pat: Text) returns (r: Option<nat>, ghost steps: nat)
    requires |pat| > 0
    ensures IsFirst(src, pat, r)
    ensures steps <= 2 * |src|
    ensures if r.Some? then steps >= r.value + |pat| else |pat| > |src| || steps >= |src|
  {
    hide OccursAt, Border, LongestBorder, Scanned;
    steps := 0;
    if |pat| > |src| {
      TooLong(src, pat);
      return None, 0;
    }
    var tb := new int[|pat|];
    CreateStringTable(pat, tb);
    var i, j, flag := 0, 0, false;
    ScanStarts(src, pat);
    while i < |src| && j < |pat|
      invariant 0 <= j <= i <= |src| && j <= |pat| && Scanned(src, pat, i, j)
      invariant flag == (j > 0) && IsTable(pat, tb[..])
      invariant i <= steps <= 2 * i - j
      decreases 2 * (|src| - i) + j
    {
      if src[i] == pat[j] {
        ScanMatches(src, pat, i, j);
        i, j, flag := i + 1, j + 1, true;
      } else if flag {
        EntryIsBorder(pat, tb[..], j - 1);
        ScanFallsBack(src, pat, i, j, tb[j - 1]);
        if tb[j - 1] == 0 {
          flag := false;
        }
        j := tb[j - 1];
      } else {
        ScanMovesOn(src, pat, i);
        j, i := 0, i + 1;
      }
      steps := steps + 1;
    }
    ScanEnds(src, pat, i, j);
    if j == |pat| {
      return Some(i - |pat|), steps;
    } else {
      return None, steps;
    }
  }

  lemma TooLong(src: Text, pat: Text)
    requires |pat| > |src|
    ensures IsFirst(src, pat, None)
  {
  }

  lemma ScanStarts(src: Text, pat: Text)
    ensures Scanned(src, pat, 0, 0)
  {
  }

  lemma ScanEnds(src: Text, pat: Text, i: nat, j: nat)
    requires Scanned(src, pat, i, j) && (j == |pat| || i == |src|)
    ensures j <= |pat| && j <= i
    ensures IsFirst(src, pat, if j == |pat| then Some((i - |pat|) as nat) else None)
  {
    if j == |pat| {
      assert OccursAt(src, pat, i - j);
    }
  }

  // ----- The skip search -----

  /** The unsigned value of a character, which indexes the 256-entry table. */
  function Unsigned(c: Char): (u: int)
    ensures 0 <= u < 256
  {
    if c < 0 then c + 256 else c
  }

  /** How often the code u occurs in the pattern. */
  function Count(pat: Text, u: int): (n: nat)
    ensures n <= |pat|
  {
    if pat == [] then 0 else (if Unsigned(pat[0]) == u then 1 else 0) + Count(pat[1..], u)
  }

  /** The last index below j whose character, as a signed value, equals the code u; -1 if there is none. */
  function LastBefore(pat: Text, j: nat, u: int): (k: int)
    requires j <= |pat|
    ensures -1 <= k < j
    ensures k >= 0 ==> pat[k] == u
    ensures forall m :: k < m < j ==> pat[m] != u
  {
    if j == 0 then -1 else if pat[j - 1] == u then j - 1 else LastBefore(pat, j - 1, u)
  }

  /** The first index of the pattern's last character. */
  function FirstOfEnd(pat: Text, i: nat): (k: nat)
    requires i < |pat|
    ensures i <= k < |pat|
    ensures Unsigned(pat[k]) == Unsigned(pat[|pat| - 1])
    ensures forall m :: i <= m < k ==> Unsigned(pat[m]) != Unsigned(pat[|pat| - 1])
    decreases |pat| - i
  {
    if Unsigned(pat[i]) == Unsigned(pat[|pat| - 1]) then i else FirstOfEnd(pat, i + 1)
  }

  function MaxGap(pat: Text): (gap: nat)
    requires |pat| > 0
    ensures gap > 0
  {
    var gap := |pat| - 1 - FirstOfEnd(pat, 0);
    if gap == 0 then |pat| else gap
  }

  /** The table is a byte per code, so its counter starts again at 0 after 255. */
  function CharStep(pat: Text, j: nat, c: Char): (step: nat)
    requires j < |pat|
    ensures 1 <= step <= j + 1
  {
    if Count(pat, Unsigned(c)) % 256 == 0 then j + 1 else j - LastBefore(pat, j, Unsigned(c))
  }

  /** How far the window moves when pat[j] meets the text character c. */
  function Jump(pat: Text, j: nat, c: Char): (step: nat)
    requires j < |pat|
    ensures 1 <= step <= j + 1
  {
    var step := CharStep(pat, j, c);
    if j == |pat| - 1 || step < MaxGap(pat) then step else MaxGap(pat)
  }

  /** The index of the last disagreement, at or below j, with the text ending at i; -1 if there is none. */
  function Mismatch(src: Text, pat: Text, i: nat, j: int): (m: int)
    requires -1 <= j < |pat| && |pat| - 1 <= i < |src|
    ensures -1 <= m <= j
    ensures m >= 0 ==> src[i - (|pat| - 1) + m] != pat[m]
    ensures forall d :: m < d <= j ==> src[i - (|pat| - 1) + d] == pat[d]
  {
    if j == -1 || src[i - (|pat| - 1) + j] != pat[j] then j else Mismatch(src, pat, i, j - 1)
  }

  /** The whole scan from the window that ends at i. */
  function SkipFrom(src: Text, pat: Text, i: nat): (r: Option<nat>)
    requires |pat| > 0 && |pat| - 1 <= i
    decreases |src| - i
  {
    if i >= |src| then None
    else
      var j := Mismatch(src, pat, i, |pat| - 1);
      if j == -1 then Some(i - (|pat| - 1))
      else SkipFrom(src, pat, i + Jump(pat, j, src[i - (|pat| - 1) + j]))
  }

  lemma SkipOnce(src: Text, pat: Text, i: nat, j: nat)
    requires 0 < |pat| && |pat| - 1 <= i < |src| && Mismatch(src, pat, i, |pat| - 1) == j
    ensures j < |pat|
    ensures SkipFrom(src, pat, i) == SkipFrom(src, pat, i + Jump(pat, j, src[i - (|pat| - 1) + j]))
  {
    hide Jump, Mismatch;
  }

  lemma SkipPastEnd(src: Text, pat: Text, i: nat)
    requires 0 < |pat| && |pat| - 1 <= i && |src| <= i
    ensures SkipFrom(src, pat, i) == None
  {
  }

  function SkipSearch(src: Text, pat: Text): (r: Option<nat>)
    requires |pat| > 0
  {
    SkipFrom(src, pat, |pat| - 1)
  }

  lemma CountSnoc(pat: Text, i: nat, u: int)
    requires i < |pat|
    ensures Count(pat[i..], u) == (if Unsigned(pat[i]) == u then 1 else 0) + Count(pat[i + 1..], u)
  {
    assert pat[i..][1..] == pat[i + 1..];
  }

  method BmSearchString(src: Text, pat: Text) returns (r: Option<nat>)
    requires |pat| > 0
    ensures r == SkipSearch(src, pat)
  {
    hide Mismatch, Jump, MaxGap, CountsFrom;
    if |pat| > |src| {
      return None;
    }
    var bitmap, maxGap := FillTable(pat);
    var i := |pat| - 1;
    while i < |src|
      invariant |pat| - 1 <= i && SkipSearch(src, pat) == SkipFrom(src, pat, i)
      decreases |src| - i
    {
      var j := CompareBackwards(src, pat, i);
      var k := i - (|pat| - 1) + j;
      if j == -1 {
        return Some(k + 1);
      }
      var step := StepOver(pat, j, src[k], bitmap, maxGap);
      i := i + step;
    }
    return None;
  }

  /** The first inner loop: from the window's end back to the last disagreement. */
  method CompareBackwards(src: Text, pat: Text, i: nat) returns (j: int)
    requires 0 < |pat| && |pat| - 1 <= i < |src|
    ensures j == Mismatch(src, pat, i, |pat| - 1)
  {
    j := |pat| - 1;
    var k := i;
    while j >= 0 && src[k] == pat[j]
      invariant -1 <= j < |pat| && k == i - (|pat| - 1) + j
      invariant Mismatch(src, pat, i, |pat| - 1) == Mismatch(src, pat, i, j)
    {
      j, k := j - 1, k - 1;
    }
  }

  /** The rest of the loop body: how far the window moves. */
  method StepOver(pat: Text, j: nat, c: Char, bitmap: seq<int>, maxGap: nat) returns (move: nat)
    requires j < |pat| && maxGap == MaxGap(pat)
    requires CountsFrom(bitmap, pat, 0)
    ensures move == Jump(pat, j, c)
  {
    assert pat[0..] == pat;
    var ch := Unsigned(c);
    var step := 0;
    if bitmap[ch] == 0 {
      step := j + 1;
    } else {
      step := 1;
      var k := j - 1;
      while k >= 0 && pat[k] != ch
        invariant -1 <= k < j && step == j - k && LastBefore(pat, j, ch) == LastBefore(pat, k + 1, ch)
      {
        step, k := step + 1, k - 1;
      }
    }
    move := if j == |pat| - 1 || step < maxGap then step else maxGap;
  }

  /** bitmap counts, byte by byte, the codes of the pattern from index i on. */
  predicate CountsFrom(bitmap: seq<int>, pat: Text, i: nat)
    requires i <= |pat|
  {
    |bitmap| == 256 && forall u {:trigger bitmap[u]} :: 0 <= u < 256 ==> bitmap[u] == Count(pat[i..], u) % 256
  }

  lemma CountsStep(bitmap: seq<int>, pat: Text, i: nat)
    requires i < |pat| && CountsFrom(bitmap, pat, i + 1)
    ensures var ch := Unsigned(pat[i]); CountsFrom(bitmap[ch := (bitmap[ch] + 1) % 256], pat, i)
  {
    forall u ensures Count(pat[i..], u) == (if Unsigned(pat[i]) == u then 1 else 0) + Count(pat[i + 1..], u) {
      CountSnoc(pat, i, u);
    }
  }

  /** The distance from the end of the first copy, at or after i, of the last character; 0 if i is past the end. */
  function GapFrom(pat: Text, i: nat): (gap: nat)
    requires i <= |pat|
  {
    if i == |pat| then 0 else |pat| - 1 - FirstOfEnd(pat, i)
  }

  /** The table of byte counters and the largest distance of the last character to its own kind. */
  method FillTable(pat: Text) returns (bitmap: seq<int>, maxGap: nat)
    requires |pat| > 0
    ensures CountsFrom(bitmap, pat, 0) && maxGap == MaxGap(pat)
  {
    bitmap := seq(256, u => 0);
    var gap := 0;
    var end := Unsigned(pat[|pat| - 1]);
    var i := |pat| - 1;
    assert CountsFrom(bitmap, pat, |pat|);
    hide CountsFrom;
    while i >= 0
      invariant -1 <= i < |pat| && |bitmap| == 256
      invariant CountsFrom(bitmap, pat, i + 1) && gap == GapFrom(pat, i + 1)
    {
      var ch := Unsigned(pat[i]);
      CountsStep(bitmap, pat, i);
      bitmap := bitmap[ch := (bitmap[ch] + 1) % 256];
      if ch == end {
        gap := |pat| - 1 - i;
      }
      i := i - 1;
    }
    maxGap := if gap == 0 then |pat| else gap;
  }

  /** Moving the pattern t places right agrees with what a window with last disagreement (j, c) has shown. */
  predicate Fits(pat: Text, j: nat, c: Char, t: nat)
    requires t <= j < |pat|
  {
    pat[j - t] == c && pat[j + 1 - t..|pat| - t] == pat[j + 1..]
  }

  /** The condition on the pattern: no jump passes a place where the pattern still fits. */
  ghost predicate JumpsAreSafe(pat: Text) {
    forall j: nat, c: Char, t: nat {:trigger Fits(pat, j, c, t)} ::
      j < |pat| && c != pat[j] && 1 <= t < Jump(pat, j, c) ==> !Fits(pat, j, c, t)
  }

  ghost predicate NoneEndsBefore(src: Text, pat: Text, i: nat) {
    forall p :: p + |pat| - 1 < i ==> !OccursAt(src, pat, p)
  }

  /** An occurrence t places right of a window fits what the window has shown. */
  lemma OccurrenceFits(src: Text, pat: Text, w: nat, j: nat, t: nat)
    requires w + |pat| <= |src| && 1 <= t <= j < |pat| && OccursAt(src, pat, w + t)
    requires forall m :: j < m < |pat| ==> src[w + m] == pat[m]
    ensures Fits(pat, j, src[w + j], t)
  {
    OccurrenceAgrees(src, pat, w + t, j - t);
    var a, b := pat[j + 1 - t..|pat| - t], pat[j + 1..];
    forall d | 0 <= d < |b|
      ensures a[d] == b[d]
    {
      OccurrenceAgrees(src, pat, w + t, j + 1 + d - t);
    }
  }

  lemma {:induction false} JumpKeepsOccurrences(src: Text, pat: Text, i: nat, j: nat)
    requires |pat| - 1 <= i < |src| && j < |pat| && JumpsAreSafe(pat) && NoneEndsBefore(src, pat, i)
    requires j == Mismatch(src, pat, i, |pat| - 1)
    ensures NoneEndsBefore(src, pat, i + Jump(pat, j, src[i - (|pat| - 1) + j]))
  {
    hide OccursAt, Fits, Jump;
    var w := i - (|pat| - 1);
    var c := src[w + j];
    OccurrenceAgrees(src, pat, w, j);
    forall p | i <= p + |pat| - 1 < i + Jump(pat, j, c)
      ensures !OccursAt(src, pat, p)
    {
      if p > w && OccursAt(src, pat, p) {
        OccurrenceFits(src, pat, w, j, p - w);
      }
    }
  }

  lemma WindowPastEnd(src: Text, pat: Text, i: nat)
    requires i >= |src| && NoneEndsBefore(src, pat, i)
    ensures IsFirst(src, pat, None)
  {
  }

  lemma WholeWindow(src: Text, pat: Text, i: nat)
    requires 0 < |pat| && |pat| - 1 <= i < |src| && NoneEndsBefore(src, pat, i) && Mismatch(src, pat, i, |pat| - 1) == -1
    ensures IsFirst(src, pat, Some((i - (|pat| - 1)) as nat)) && SkipFrom(src, pat, i) == Some((i - (|pat| - 1)) as nat)
  {
    var w := i - (|pat| - 1);
    assert src[w..w + |pat|] == pat;
  }

  lemma {:induction false} SafeJumpsFindFirst(src: Text, pat: Text, i: nat)
    requires |pat| > 0 && |pat| - 1 <= i && JumpsAreSafe(pat) && NoneEndsBefore(src, pat, i)
    ensures IsFirst(src, pat, SkipFrom(src, pat, i))
    decreases |src| - i
  {
    hide JumpsAreSafe, Jump, OccursAt, Mismatch, NoneEndsBefore, IsFirst;
    if i < |src| {
      var w := i - (|pat| - 1);
      var j := Mismatch(src, pat, i, |pat| - 1);
      if j == -1 {
        WholeWindow(src, pat, i);
      } else {
        SkipOnce(src, pat, i, j);
        JumpKeepsOccurrences(src, pat, i, j);
        SafeJumpsFindFirst(src, pat, i + Jump(pat, j, src[w + j]));
      }
    } else {
      WindowPastEnd(src, pat, i);
      SkipPastEnd(src, pat, i);
    }
  }

  lemma LastMismatch(src: Text, pat: Text, i: nat, j: nat)
    requires j < |pat| && |pat| - 1 <= i < |src| && src[i - (|pat| - 1) + j] != pat[j]
    requires forall m :: j < m < |pat| ==> src[i - (|pat| - 1) + m] == pat[m]
    ensures Mismatch(src, pat, i, |pat| - 1) == j
  {
    assert Mismatch(src, pat, i, |pat| - 1) >= j;
  }

  /** Whatever t characters stand before the pattern, an unsafe jump passes over it. */
  lemma UnsafeJumpMisses(src: Text, pat: Text, j: nat, c: Char, t: nat)
    requires j < |pat| && c != pat[j] && 1 <= t < Jump(pat, j, c) && Fits(pat, j, c, t)
    requires |src| == t + |pat| && src[t..] == pat
    ensures SkipSearch(src, pat) == None && OccursAt(src, pat, t)
  {
    hide Jump, Mismatch, OccursAt, Fits, SkipFrom;
    ShiftedPattern(src, pat, j, c, t);
    LastMismatch(src, pat, |pat| - 1, j);
    SkipOnce(src, pat, |pat| - 1, j);
    SkipPastEnd(src, pat, |pat| - 1 + Jump(pat, j, c));
  }

  lemma ShiftedPattern(src: Text, pat: Text, j: nat, c: Char, t: nat)
    requires t <= j < |pat| && |src| == t + |pat| && src[t..] == pat && Fits(pat, j, c, t)
    ensures OccursAt(src, pat, t) && src[j] == c && forall m :: j < m < |pat| ==> src[m] == pat[m]
  {
    assert src[t..t + |pat|] == src[t..];
    assert src[j] == src[t..][j - t];
    forall m | j < m < |pat|
      ensures src[m] == pat[m]
    {
      assert pat[j + 1 - t..|pat| - t][m - (j + 1)] == pat[j + 1..][m - (j + 1)];
      assert src[m] == src[t..][m - t];
    }
  }

  lemma SafeSearch(src: Text, pat: Text)
    requires |pat| > 0 && JumpsAreSafe(pat)
    ensures IsFirst(src, pat, SkipSearch(src, pat))
  {
    SafeJumpsFindFirst(src, pat, |pat| - 1);
  }

  lemma UnsafeSearch(pat: Text) returns (src: Text)
    requires |pat| > 0 && !JumpsAreSafe(pat)
    ensures !IsFirst(src, pat, SkipSearch(src, pat))
  {
    hide Jump, Fits, OccursAt, SkipSearch;
    var j: nat, c: Char, t: nat :| j < |pat| && c != pat[j] && 1 <= t < Jump(pat, j, c) && Fits(pat, j, c, t);
    src := seq(t, _ => pat[0]) + pat;
    UnsafeJumpMisses(src, pat, j, c, t);
  }

  /** The skip search finds the first occurrence in every text exactly when the pattern's jumps are safe. */
  lemma SkipSearchCorrectIff(pat: Text)
    requires |pat| > 0
    ensures JumpsAreSafe(pat) <==> forall src: Text :: IsFirst(src, pat, SkipSearch(src, pat))
  {
    hide *;
    if JumpsAreSafe(pat) {
      forall src: Text
        ensures IsFirst(src, pat, SkipSearch(src, pat))
      {
        SafeSearch(src, pat);
      }
    } else {
      var src := UnsafeSearch(pat);
    }
  }

  lemma {:induction false} CountPositive(pat: Text, k: nat)
    requires k < |pat|
    ensures Count(pat, Unsigned(pat[k])) > 0
  {
    if k > 0 {
      CountPositive(pat[1..], k - 1);
    }
  }

  /** 7-bit patterns of at most 255 characters are safe, whatever the text contains. */
  lemma ShortAsciiIsSafe(pat: Text)
    requires |pat| <= 255 && forall k :: 0 <= k < |pat| ==> pat[k] >= 0
    ensures JumpsAreSafe(pat)
  {
    forall j: nat, c: Char, t: nat | j < |pat| && c != pat[j] && 1 <= t < Jump(pat, j, c)
      ensures !Fits(pat, j, c, t)
    {
      CountPositive(pat, j - t);
    }
  }

  /** Short 7-bit patterns are found as the failure-table search finds them. */
  lemma ShortAsciiAgrees(src: Text, pat: Text, r: Option<nat>)
    requires 0 < |pat| <= 255 && (forall k :: 0 <= k < |pat| ==> pat[k] >= 0) && IsFirst(src, pat, r)
    ensures SkipSearch(src, pat) == r
  {
    ShortAsciiIsSafe(pat);
    SkipAgreesWithKmp(src, pat, r);
  }

  /** On all safe patterns the two searches agree. */
  lemma SkipAgreesWithKmp(src: Text, pat: Text, r: Option<nat>)
    requires |pat| > 0 && JumpsAreSafe(pat) && IsFirst(src, pat, r)
    ensures SkipSearch(src, pat) == r
  {
    SkipSearchCorrectIff(pat);
    FirstIsUnique(src, pat, r, SkipSearch(src, pat));
  }

  /** A pattern with a character outside the 7-bit range whose only occurrence is passed over. */
  lemma SignedCharacterIsMissed()
    ensures var pat: Text := [-1, -1, 98, -1];
            !JumpsAreSafe(pat) && SkipSearch([-1, -1] + pat, pat) == None && OccursAt([-1, -1] + pat, pat, 2)
  {
    var pat: Text := [-1, -1, 98, -1];
    assert LastBefore(pat, 2, 255) == -1;
    assert FirstOfEnd(pat, 0) == 0;
    assert pat[1..2] == pat[3..];
    assert Fits(pat, 2, -1, 2);
    UnsafeJumpMisses([-1, -1] + pat, pat, 2, -1, 2);
  }

  /** n characters 'a' and a 'b'. */
  function RunOf(n: nat): (pat: Text) {
    seq(n, _ => 97) + [98]
  }

  lemma {:induction false} CountOfRun(n: nat)
    ensures Count(RunOf(n), 97) == n
  {
    if n > 0 {
      assert RunOf(n)[1..] == RunOf(n - 1);
      CountOfRun(n - 1);
    } else {
      assert RunOf(0) == [98] && [98][1..] == [];
    }
  }

  /** When the pattern holds a multiple of 256 times the character before its last one, the counter hides them all. */
  lemma WrappedCounterIsMissed(n: nat)
    requires n > 0 && n % 256 == 0
    ensures var pat := RunOf(n);
            !JumpsAreSafe(pat) && SkipSearch([97] + pat, pat) == None && OccursAt([97] + pat, pat, 1)
  {
    var pat := RunOf(n);
    CountOfRun(n);
    assert CharStep(pat, n, 97) == n + 1;
    assert pat[n..n] == pat[n + 1..];
    assert Fits(pat, n, 97, 1);
    assert ([97] + pat)[1..] == pat;
    UnsafeJumpMisses([97] + pat, pat, n, 97, 1);
  }
}
