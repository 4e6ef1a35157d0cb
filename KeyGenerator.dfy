/**
 The key generator: random candidate strings over the alphabet ACTG, the four structural
 checks applied in a fixed order (homopolymers, GC content, folding, repeats), and the
 bounded retry loop that ties them together.

 Each check that the C# code runs as a loop is a method proved equal to a specification
 function; the lemmas then say what those functions mean. Randomness is a nondeterministic
 choice of a base; logging is dropped.
 */
module KeyGenerator {
  import opened Wrappers
  import opened StringSearch

  /** The result of the structural checks; every value but Valid names the first check that failed. */
  datatype SequenceStatus = Valid | Homopolymer | GCContent | Folding | Repeats

  /**
   What Generate returns when it does not throw: the key and the index of the attempt that
   produced it, or, once every attempt has failed, no key (the C# null) and the attempt counter.
   */
  datatype Generated = Found(key: string, attempt: nat) | Exhausted(attempt: nat)

  /** The alphabet of the candidate strings. */
  const Characters: string := "ACTG"

  predicate IsBase(c: char)
  {
    c in Characters
  }

  predicate AllBases(s: string)
  {
    forall j :: 0 <= j < |s| ==> IsBase(s[j])
  }

  // ---------------------------------------------------------------------------
  // Candidate generation

  /** One base drawn at random from the alphabet. */
  method RandomBase() returns (b: char)
    ensures IsBase(b)
  {
    assert IsBase(Characters[0]);
    b :| IsBase(b);
  }

  /** `len` bases drawn at random; a negative length gives the empty string, as the `for` loop does not run. */
  method RandomString(len: int) returns (s: string)
    ensures |s| == if len < 0 then 0 else len
    ensures AllBases(s)
  {
    s := "";
    var i := 0;
    while i < len
      invariant 0 <= i && |s| == i
      invariant i <= if len < 0 then 0 else len
      invariant AllBases(s)
    {
      var b := RandomBase();
      s := s + [b];
      i := i + 1;
    }
  }

  /** Some position holds the same base as its predecessor. */
  predicate HasHomopolymer(s: string)
  {
    exists j :: 1 <= j < |s| && s[j] == s[j - 1]
  }

  /**
   Random bases where every base after the first differs from its predecessor. The source
   redraws a base until it differs from the previous one; the model draws directly among the
   bases that differ from it.
   */
  method RandomStringWithoutHomopolymers(len: int) returns (s: string)
    ensures |s| == if len < 0 then 0 else len
    ensures AllBases(s)
    ensures !HasHomopolymer(s)
  {
    s := "";
    var i := 0;
    while i < len
      invariant 0 <= i && |s| == i
      invariant i <= if len < 0 then 0 else len
      invariant AllBases(s)
      invariant forall j :: 1 <= j < |s| ==> s[j] != s[j - 1]
    {
      var b;
      if i == 0 {
        b := RandomBase();
      } else {
        assert IsBase(if s[i - 1] == 'A' then 'C' else 'A');
        b :| IsBase(b) && b != s[i - 1];
      }
      s := s + [b];
      i := i + 1;
    }
  }

  // ---------------------------------------------------------------------------
  // Check 1: homopolymers

  method HomopolymersExist(s: string) returns (found: bool)
    ensures found <==> HasHomopolymer(s)
  {
    var i := 1;
    while i < |s|
      invariant 1 <= i
      invariant forall j :: 1 <= j < i && j < |s| ==> s[j] != s[j - 1]
    {
      if s[i] == s[i - 1] {
        return true;
      }
      i := i + 1;
    }
    return false;
  }

  // ---------------------------------------------------------------------------
  // Check 2: GC content

  predicate IsGc(c: char)
  {
    c == 'C' || c == 'G'
  }

  /** The number of `C` and `G` characters in `s`; every other character counts for nothing. */
  function GcCount(s: string): (n: nat)
    ensures n <= |s|
  {
    if s == [] then 0
    else (if IsGc(s[0]) then 1 else 0) + GcCount(s[1..])
  }

  /**
   The count of a concatenation is the sum of the counts of its parts; the counting loop
   relies on it each time it takes one more character.
   */
  lemma {:induction false} GcCountOfConcat(a: string, b: string)
    ensures GcCount(a + b) == GcCount(a) + GcCount(b)
    decreases |a|
  {
    if a != [] {
      assert (a + b)[1..] == a[1..] + b;
      GcCountOfConcat(a[1..], b);
    } else {
      assert a + b == b;
    }
  }

  /**
   The share of `C`/`G` characters in a non-empty string. Characters outside ACGT count in
   the denominator only.
   */
  function GcShare(s: string): real
    requires |s| >= 1
  {
    GcCount(s) as real / |s| as real
  }

  /** The source divides 0 by 0 for the empty string, so the model requires a non-empty one. */
  method CalculateGcContent(s: string) returns (ratio: real)
    requires |s| >= 1
    ensures ratio == GcShare(s)
  {
    var len := |s|;
    var atContent := 0;
    var gcContent := 0;
    for idx := 0 to |s|
      invariant gcContent == GcCount(s[..idx])
    {
      var c := s[idx];
      if c == 'A' || c == 'T' {
        atContent := atContent + 1;
      } else if c == 'C' || c == 'G' {
        gcContent := gcContent + 1;
      }
      assert s[..idx + 1] == s[..idx] + [c];
      GcCountOfConcat(s[..idx], [c]);
    }
    assert s[..|s|] == s;
    ratio := gcContent as real / len as real;
  }

  /**
   The GC check fails: the GC share is strictly above the threshold, so equality passes.
   The empty string passes, as 0/0 is NaN in C# and `NaN > x` is false.
   */
  predicate GcExceeds(s: string, maxGcContent: real)
  {
    |s| > 0 && GcShare(s) > maxGcContent
  }

  // ---------------------------------------------------------------------------
  // Check 3: folding

  /** The Watson-Crick partner of a base; any other character throws. */
  function GetComplementaryBase(c: char): (r: Result<char, Exception>)
    ensures r.Success? <==> IsBase(c)
    ensures r.Success? ==> IsBase(r.value) && r.value != c
    ensures r.Failure? ==> r.error == InvalidBase(c)
  {
    match c
    case 'A' => Success('T')
    case 'T' => Success('A')
    case 'C' => Success('G')
    case 'G' => Success('C')
    case _ => Failure(InvalidBase(c))
  }

  /** Complementing a base twice gives it back. */
  lemma ComplementBaseInvolution(c: char)
    requires IsBase(c)
    ensures GetComplementaryBase(GetComplementaryBase(c).value) == Success(c)
  {
  }

  /**
   The base-wise complement of `w` (not reversed). It fails, with the first character of `w`
   that is not a base, when there is one.
   */
  function ComplementOf(w: string): (r: Result<string, Exception>)
    ensures r.Success? <==> AllBases(w)
    ensures r.Success? ==> |r.value| == |w|
    ensures r.Success? ==> forall j :: 0 <= j < |w| ==> GetComplementaryBase(w[j]) == Success(r.value[j])
    ensures r.Failure? ==>
      exists j :: 0 <= j < |w| && !IsBase(w[j]) && r.error == InvalidBase(w[j]) && AllBases(w[..j])
  {
    if w == [] then Success([])
    else
      var last := w[|w| - 1];
      assert w == w[..|w| - 1] + [last];
      match ComplementOf(w[..|w| - 1])
      case Failure(e) =>
        var j :| 0 <= j < |w| - 1 && !IsBase(w[..|w| - 1][j]) && e == InvalidBase(w[..|w| - 1][j])
                 && AllBases(w[..|w| - 1][..j]);
        assert w[..|w| - 1][..j] == w[..j];
        Failure(e)
      case Success(prefix) =>
        match GetComplementaryBase(last)
        case Failure(e) => Failure(e)
        case Success(c) => Success(prefix + [c])
  }

  /** Once a prefix of `w` fails to complement, `w` fails with the same error. */
  lemma {:induction false} ComplementOfFailurePropagates(w: string, n: nat)
    requires n <= |w| && ComplementOf(w[..n]).Failure?
    ensures ComplementOf(w) == ComplementOf(w[..n])
    decreases |w| - n
  {
    if n < |w| {
      var u := w[..n + 1];
      assert u[..|u| - 1] == w[..n];
      assert ComplementOf(u) == ComplementOf(w[..n]);
      ComplementOfFailurePropagates(w, n + 1);
    } else {
      assert w[..n] == w;
    }
  }

  /** Complementing a string of bases twice gives it back. */
  lemma ComplementInvolution(w: string)
    requires AllBases(w)
    ensures ComplementOf(ComplementOf(w).value) == Success(w)
  {
    var c := ComplementOf(w).value;
    forall j | 0 <= j < |w|
      ensures GetComplementaryBase(c[j]) == Success(w[j])
    {
      ComplementBaseInvolution(w[j]);
    }
    assert AllBases(c);
    assert ComplementOf(c).value == w;
  }

  /** The accumulator loop of the source: complements `w` character by character. */
  method GetComplementaryBases(w: string) returns (r: Result<string, Exception>)
    ensures r == ComplementOf(w)
  {
    var ret := "";
    for j := 0 to |w|
      invariant ComplementOf(w[..j]) == Success(ret)
    {
      assert w[..j + 1][..j] == w[..j];
      var c := GetComplementaryBase(w[j]);
      if c.Failure? {
        ComplementOfFailurePropagates(w, j + 1);
        return Failure(c.error);
      }
      ret := ret + [c.value];
    }
    assert w[..|w|] == w;
    return Success(ret);
  }

  /**
   The folding loop from window `i` on: the window of length `k` at each `i` with
   `i < |s| - k` (so the last window is skipped) is complemented and searched for from `i + 1` on.
   */
  function FoldingFrom(s: string, k: nat, i: nat): Result<bool, Exception>
    decreases |s| - i
  {
    if i + k >= |s| then Success(false)
    else
      match ComplementOf(s[i..i + k])
      case Failure(e) => Failure(e)
      case Success(c) => if IndexOf(s, c, i + 1) != -1 then Success(true) else FoldingFrom(s, k, i + 1)
  }

  method FoldingPotentialExists(s: string, k: nat) returns (r: Result<bool, Exception>)
    ensures r == FoldingFrom(s, k, 0)
  {
    var i := 0;
    while i < |s| - k
      invariant 0 <= i
      invariant FoldingFrom(s, k, i) == FoldingFrom(s, k, 0)
    {
      var sequenceToCheck := s[i..i + k];
      var complementaryBases := GetComplementaryBases(sequenceToCheck);
      if complementaryBases.Failure? {
        return Failure(complementaryBases.error);
      }
      if IndexOf(s, complementaryBases.value, i + 1) != -1 {
        return Success(true);
      }
      i := i + 1;
    }
    return Success(false);
  }

  /** `p` occurs in `s` at some start index after `i`. */
  ghost predicate OccursAfter(s: string, p: string, i: int)
  {
    exists t :: i < t && OccursAt(s, p, t)
  }

  /** In a string of bases, the window of length `k` at `i` has its complement at a later start index. */
  ghost predicate FoldsAt(s: string, k: nat, i: int)
    requires AllBases(s)
  {
    0 <= i && i + k <= |s| && OccursAfter(s, ComplementOf(s[i..i + k]).value, i)
  }

  /** The window that the folding loop skips, the last one, has no room after it to fold with. */
  lemma LastWindowCannotFold(s: string, k: nat)
    requires AllBases(s) && k <= |s|
    ensures !FoldsAt(s, k, |s| - k)
  {
  }

  /**
   On other strings the skip matters: a non-base character that occurs only in the last window
   is never complemented, so the folding check answers false where a loop over every window
   would throw, and the string validates.
   */
  lemma LastWindowHidesInvalidBase()
    ensures ComplementOf("ACX"[2..3]) == Failure(InvalidBase('X'))
    ensures FoldingFrom("ACX", 1, 0) == Success(false)
    ensures Status("ACX", 0.5, 1, 2, 1) == Success(Valid)
  {
  }

  /** On a string of bases the folding loop never throws, and it finds exactly the windows that fold. */
  lemma {:induction false} FoldingMeaning(s: string, k: nat, i: nat)
    requires AllBases(s)
    ensures FoldingFrom(s, k, i) == Success(exists j :: i <= j && FoldsAt(s, k, j))
    decreases |s| - i
  {
    if i + k >= |s| {
      forall j | i <= j ensures !FoldsAt(s, k, j) {
        if j + k <= |s| {
          assert j == |s| - k;
          LastWindowCannotFold(s, k);
        }
      }
    } else {
      var c := ComplementOf(s[i..i + k]).value;
      var t := IndexOf(s, c, i + 1);
      FoldingMeaning(s, k, i + 1);
      if t != -1 {
        assert FoldsAt(s, k, i);
      } else {
        assert !FoldsAt(s, k, i);
        assert (exists j :: i <= j && FoldsAt(s, k, j)) == (exists j :: i + 1 <= j && FoldsAt(s, k, j));
      }
    }
  }

  // ---------------------------------------------------------------------------
  // Check 4: repeats

  /** The window of length `m` at `i` occurs more than `r` times at start indices from `i + m` on. */
  predicate RepeatsAt(s: string, m: nat, r: nat, i: int)
  {
    0 <= i && i + m <= |s| && CountFrom(s, s[i..i + m], i + m) > r
  }

  /**
   The repeat loop from window `i` on: windows run while `i <= |s| - m * r`, and taking a window
   that does not fit (possible only when `r = 0`) throws from `Substring`.
   */
  function RepeatedFrom(s: string, m: nat, r: nat, i: nat): Result<bool, Exception>
    decreases |s| - m * r + 1 - i
  {
    if i > |s| - m * r then Success(false)
    else if i + m > |s| then Failure(ArgumentOutOfRange("length"))
    else if CountFrom(s, s[i..i + m], i + m) > r then Success(true)
    else RepeatedFrom(s, m, r, i + 1)
  }

  /**
   The inner search loop of the repeat check: walks the occurrences of `p` from `start` on,
   one `IndexOf` at a time from the last one plus 1, and stops as soon as more than `r` are found.
   */
  method OccurrencesExceed(s: string, p: string, start: nat, r: nat) returns (exceeded: bool)
    requires |p| >= 1 && start <= |s|
    ensures exceeded <==> CountFrom(s, p, start) > r
  {
    var count := 0;
    CountFromSkipsToIndexOf(s, p, start);
    var pos := IndexOf(s, p, start);
    while pos != -1
      invariant pos == -1 || (start <= pos && OccursAt(s, p, pos))
      invariant count + (if pos == -1 then 0 else CountFrom(s, p, pos)) == CountFrom(s, p, start)
      invariant count <= r
      decreases if pos == -1 then 0 else |s| - pos
    {
      assert CountFrom(s, p, pos) == 1 + CountFrom(s, p, pos + 1);
      count := count + 1;
      if count > r {
        return true;
      }
      CountFromSkipsToIndexOf(s, p, pos + 1);
      pos := IndexOf(s, p, pos + 1);
    }
    return false;
  }

  method IsSequenceRepeated(s: string, m: int, r: nat) returns (result: Result<bool, Exception>)
    requires m >= 1
    ensures result == RepeatedFrom(s, m, r, 0)
  {
    var i := 0;
    while i <= |s| - m * r
      invariant 0 <= i
      invariant RepeatedFrom(s, m, r, i) == RepeatedFrom(s, m, r, 0)
      decreases |s| - m * r + 1 - i
    {
      if i + m > |s| {
        return Failure(ArgumentOutOfRange("length"));
      }
      var sequenceToCheck := s[i..i + m];
      var repeated := OccurrencesExceed(s, sequenceToCheck, i + m, r);
      if repeated {
        return Success(true);
      }
      i := i + 1;
    }
    return Success(false);
  }

  /** With at least one repetition allowed the repeat loop never throws, and it finds exactly the repeating windows it visits. */
  lemma {:induction false} RepeatsMeaning(s: string, m: nat, r: nat, i: nat)
    requires r >= 1
    ensures RepeatedFrom(s, m, r, i) == Success(exists j :: i <= j <= |s| - m * r && RepeatsAt(s, m, r, j))
    decreases |s| - m * r + 1 - i
  {
    if i <= |s| - m * r {
      assert m * r == m * (r - 1) + m;
      assert i + m <= |s|;
      RepeatsMeaning(s, m, r, i + 1);
      if !RepeatsAt(s, m, r, i) {
        assert (exists j :: i <= j <= |s| - m * r && RepeatsAt(s, m, r, j))
            == (exists j :: i + 1 <= j <= |s| - m * r && RepeatsAt(s, m, r, j));
      }
    }
  }

  /** `ACAC…` of length `n`: `A` at even indices, `C` at odd ones. */
  function Alternating(n: nat): (s: string)
    ensures |s| == n
  {
    if n == 0 then [] else Alternating(n - 1) + [if (n - 1) % 2 == 0 then 'A' else 'C']
  }

  lemma {:induction false} AlternatingAt(n: nat, j: nat)
    requires j < n
    ensures Alternating(n)[j] == if j % 2 == 0 then 'A' else 'C'
  {
    if j < n - 1 {
      AlternatingAt(n - 1, j);
    }
  }

  /** No two neighbours of an alternating string are equal. */
  lemma AlternatingNoHomopolymer(n: nat)
    ensures !HasHomopolymer(Alternating(n))
  {
    forall j | 1 <= j < n ensures Alternating(n)[j] != Alternating(n)[j - 1] {
      AlternatingAt(n, j);
      AlternatingAt(n, j - 1);
    }
  }

  /** In an alternating string of even length, `ACAC` occurs at every even start from `j` on that fits. */
  lemma {:induction false} AlternatingCount(n: nat, j: nat)
    requires n % 2 == 0 && 4 <= j <= n - 3
    ensures CountFrom(Alternating(n), "ACAC", j) == (n - 2 - j) / 2
    decreases n - j
  {
    var s := Alternating(n);
    if j < n - 3 {
      AlternatingCount(n, j + 1);
      AlternatingAt(n, j);
      AlternatingAt(n, j + 1);
      AlternatingAt(n, j + 2);
      AlternatingAt(n, j + 3);
      if j % 2 == 0 {
        assert s[j..j + 4] == "ACAC";
        assert (n - 2 - j) / 2 == (n - 3 - j) / 2 + 1;
      } else {
        assert s[j..j + 4][0] == 'C';
        assert (n - 2 - j) / 2 == (n - 3 - j) / 2;
      }
    }
  }

  /** Half of an alternating string, rounded down, is `C`. */
  lemma {:induction false} AlternatingGc(n: nat)
    ensures GcCount(Alternating(n)) == n / 2
  {
    if n > 0 {
      var c := if (n - 1) % 2 == 0 then 'A' else 'C';
      AlternatingGc(n - 1);
      GcCountOfConcat(Alternating(n - 1), [c]);
      assert [c][1..] == [];
    }
  }

  /** A count that is half of a positive length is a share of exactly one half. */
  lemma HalfShare(g: nat, n: nat)
    requires n > 0 && 2 * g == n
    ensures g as real / n as real == 0.5
  {
    var q := g as real / n as real;
    assert q * n as real == g as real;
    assert (q - 0.5) * n as real == 0.0;
  }

  /**
   A window length of at least the string's length leaves the folding loop no window, and
   `m * r` above the length leaves the repeat loop none: such a string is Valid as soon as it
   passes the homopolymer and GC checks.
   */
  lemma NothingVisitedIsValid(s: string, maxGcContent: real, k: nat, m: nat, r: nat)
    requires !HasHomopolymer(s) && !GcExceeds(s, maxGcContent)
    requires k >= |s| && m * r > |s|
    ensures Status(s, maxGcContent, k, m, r) == Success(Valid)
  {
  }

  /** The range checks of `Generate` accept a window length of 4 with `4 * r` above the length. */
  lemma UnvisitedWindowsParameters(n: nat, r: nat)
    requires 4 * r > n && (n - 6) / 2 > r
    ensures ParameterError(n, 1000, 0.5, n, 4, r) == None
  {
  }

  /**
   The repeat loop visits only the windows at `i <= |s| - m * r`, so when `m * r` exceeds the
   length it visits none. With windows of length 4 and `4 * r > n`, parameters that pass the
   range checks (`UnvisitedWindowsParameters`; n = 18 and r = 5, say) let the alternating key
   of length `n` pass although its window at 0 occurs more than `r` times later on.
   */
  lemma UnvisitedWindowsExample(n: nat, r: nat)
    requires n % 2 == 0 && 4 * r > n && (n - 6) / 2 > r
    ensures Alternating(n)[0..4] == "ACAC" && CountFrom(Alternating(n), "ACAC", 4) > r
    ensures Status(Alternating(n), 0.5, n, 4, r) == Success(Valid)
  {
    var s := Alternating(n);
    AlternatingCount(n, 4);
    assert s[0..4] == "ACAC" by {
      AlternatingAt(n, 0);
      AlternatingAt(n, 1);
      AlternatingAt(n, 2);
      AlternatingAt(n, 3);
    }
    AlternatingNoHomopolymer(n);
    AlternatingGc(n);
    HalfShare(GcCount(s), n);
    NothingVisitedIsValid(s, 0.5, n, 4, r);
  }

  /**
   With no repetition allowed the loop runs past the last window that fits: it reports a
   repeat if some window recurs, and otherwise throws; it never reports "no repeats".
   */
  lemma {:induction false} NoRepetitionsMeaning(s: string, m: nat, i: nat)
    requires m >= 1 && i <= |s|
    ensures RepeatedFrom(s, m, 0, i) ==
      if exists j :: i <= j && RepeatsAt(s, m, 0, j) then Success(true)
      else Failure(ArgumentOutOfRange("length"))
    decreases |s| - i
  {
    if i + m <= |s| {
      NoRepetitionsMeaning(s, m, i + 1);
      if !RepeatsAt(s, m, 0, i) {
        assert (exists j :: i <= j && RepeatsAt(s, m, 0, j)) == (exists j :: i + 1 <= j && RepeatsAt(s, m, 0, j));
      }
    }
  }

  // ---------------------------------------------------------------------------
  // The validator

  /**
   The outcome of the four checks in their order, each one reached only when the earlier
   ones pass; an exception thrown inside a check becomes the result.
   */
  function Status(s: string, maxGcContent: real, k: nat, m: nat, r: nat): Result<SequenceStatus, Exception>
  {
    if HasHomopolymer(s) then Success(Homopolymer)
    else if GcExceeds(s, maxGcContent) then Success(GCContent)
    else match FoldingFrom(s, k, 0)
      case Failure(e) => Failure(e)
      case Success(true) => Success(Folding)
      case Success(false) =>
        match RepeatedFrom(s, m, r, 0)
        case Failure(e) => Failure(e)
        case Success(true) => Success(Repeats)
        case Success(false) => Success(Valid)
  }

  /**
   The checks run in a fixed order and the first failure decides: each outcome holds exactly
   when its own check fails and every earlier one passes, so a later check, and any exception
   it would throw, is never reached after an earlier failure.
   */
  lemma StatusPrecedence(s: string, maxGcContent: real, k: nat, m: nat, r: nat)
    ensures Status(s, maxGcContent, k, m, r) == Success(Homopolymer) <==> HasHomopolymer(s)
    ensures Status(s, maxGcContent, k, m, r) == Success(GCContent) <==>
      !HasHomopolymer(s) && GcExceeds(s, maxGcContent)
    ensures Status(s, maxGcContent, k, m, r) == Success(Folding) <==>
      !HasHomopolymer(s) && !GcExceeds(s, maxGcContent) && FoldingFrom(s, k, 0) == Success(true)
    ensures Status(s, maxGcContent, k, m, r) == Success(Repeats) <==>
      !HasHomopolymer(s) && !GcExceeds(s, maxGcContent) && FoldingFrom(s, k, 0) == Success(false)
      && RepeatedFrom(s, m, r, 0) == Success(true)
    ensures Status(s, maxGcContent, k, m, r) == Success(Valid) <==>
      !HasHomopolymer(s) && !GcExceeds(s, maxGcContent) && FoldingFrom(s, k, 0) == Success(false)
      && RepeatedFrom(s, m, r, 0) == Success(false)
  {
  }

  method Validate(
    s: string,
    maxGcContent: real := 0.5,
    maxComplementaryBases: nat := 8,
    minRepetitiveSequenceLength: int := 3,
    maxAllowedRepetitions: nat := 1
  ) returns (status: Result<SequenceStatus, Exception>)
    requires minRepetitiveSequenceLength >= 1
    ensures status == Status(s, maxGcContent, maxComplementaryBases, minRepetitiveSequenceLength, maxAllowedRepetitions)
  {
    var homopolymers := HomopolymersExist(s);
    if homopolymers {
      return Success(Homopolymer);
    }

    // for the empty string the source compares NaN with the threshold, which is false
    if |s| > 0 {
      var gcContent := CalculateGcContent(s);
      if gcContent > maxGcContent {
        return Success(GCContent);
      }
    }

    var foldPossible := FoldingPotentialExists(s, maxComplementaryBases);
    if foldPossible.Failure? {
      return Failure(foldPossible.error);
    }
    if foldPossible.value {
      return Success(Folding);
    }

    var repeats := IsSequenceRepeated(s, minRepetitiveSequenceLength, maxAllowedRepetitions);
    if repeats.Failure? {
      return Failure(repeats.error);
    }
    if repeats.value {
      return Success(Repeats);
    }
    return Success(Valid);
  }

  /** What a structurally valid key satisfies, stated without the loops of the checks. */
  ghost predicate StructurallySound(s: string, maxGcContent: real, k: nat, m: nat, r: nat)
    requires AllBases(s)
  {
    && !HasHomopolymer(s)
    && (|s| > 0 ==> GcShare(s) <= maxGcContent)
    && (forall i :: !FoldsAt(s, k, i))
    && (forall i :: i <= |s| - m * r ==> !RepeatsAt(s, m, r, i))
  }

  /**
   On a string of bases, Validate answers Valid exactly when at least one repetition is allowed
   and the string is structurally sound; it throws only in the repeat search, and only when no
   repetition is allowed.
   */
  lemma StatusMeaning(s: string, maxGcContent: real, k: nat, m: nat, r: nat)
    requires AllBases(s) && m >= 1
    ensures Status(s, maxGcContent, k, m, r) == Success(Valid) <==>
      r >= 1 && StructurallySound(s, maxGcContent, k, m, r)
    ensures Status(s, maxGcContent, k, m, r).Failure? ==>
      r == 0 && Status(s, maxGcContent, k, m, r).error == ArgumentOutOfRange("length")
  {
    FoldingMeaning(s, k, 0);
    if r >= 1 {
      RepeatsMeaning(s, m, r, 0);
    } else {
      NoRepetitionsMeaning(s, m, 0);
    }
  }

  /**
   A string that passes the first three checks but, with no repetition allowed, makes the
   repeat search take a window past the end of the string and throw.
   */
  lemma NoRepetitionsThrowsExample()
    ensures Status("ACA", 0.5, 1, 2, 0) == Failure(ArgumentOutOfRange("length"))
  {
    var s := "ACA";
    assert !HasHomopolymer(s) by {
      assert s[1] != s[0] && s[2] != s[1];
    }
    assert GcCount(s) == 1 by {
      assert s[1..] == "CA" && s[1..][1..] == "A" && s[1..][1..][1..] == "";
    }
    FoldingMeaning(s, 1, 0);
    forall j | 0 <= j ensures !FoldsAt(s, 1, j) {
      if j + 1 <= |s| {
        var c := ComplementOf(s[j..j + 1]).value;
        assert c[0] != 'A' && c[0] != 'C' by {
          assert GetComplementaryBase(s[j]) == Success(c[0]);
        }
      }
    }
    NoRepetitionsMeaning(s, 2, 0);
    forall j | 0 <= j ensures !RepeatsAt(s, 2, 0, j) {
      if j + 2 <= |s| {
        CountFromPositive(s, s[j..j + 2], j + 2);
      }
    }
  }

  // ---------------------------------------------------------------------------
  // The generator

  /** The name of the first parameter whose range check throws, or None when all are in range. */
  function ParameterError(
    len: int,
    maxAttempts: int,
    maxGcContent: real,
    maxComplementaryBases: int,
    minRepetitiveSequenceLength: int,
    maxAllowedRepetitions: int
  ): (r: Option<string>)
    ensures r == None <==>
      && len >= 1
      && maxAttempts >= 1
      && 0.01 <= maxGcContent <= 0.99
      && 1 <= maxComplementaryBases <= len
      && 2 <= minRepetitiveSequenceLength <= len
      && maxAllowedRepetitions >= 0
    ensures len < 1 ==> r == Some("len")
    ensures len >= 1 && maxAttempts < 1 ==> r == Some("maxAttempts")
    ensures len >= 1 && maxAttempts >= 1 && !(0.01 <= maxGcContent <= 0.99) ==> r == Some("maxGcContent")
    ensures (len >= 1 && maxAttempts >= 1 && 0.01 <= maxGcContent <= 0.99
             && !(1 <= maxComplementaryBases <= len)) ==> r == Some("maxComplementaryBases")
    ensures (len >= 1 && maxAttempts >= 1 && 0.01 <= maxGcContent <= 0.99 && 1 <= maxComplementaryBases <= len
             && !(2 <= minRepetitiveSequenceLength <= len)) ==> r == Some("minRepetitiveSequenceLength")
    ensures r == Some("maxAllowedRepetitions") <==>
      len >= 1 && maxAttempts >= 1 && 0.01 <= maxGcContent <= 0.99 && 1 <= maxComplementaryBases <= len
      && 2 <= minRepetitiveSequenceLength <= len && maxAllowedRepetitions < 0
  {
    if len < 1 then Some("len")
    else if maxAttempts < 1 then Some("maxAttempts")
    else if maxGcContent < 0.01 || maxGcContent > 0.99 then Some("maxGcContent")
    else if maxComplementaryBases < 1 || maxComplementaryBases > len then Some("maxComplementaryBases")
    else if minRepetitiveSequenceLength < 2 || minRepetitiveSequenceLength > len then Some("minRepetitiveSequenceLength")
    else if maxAllowedRepetitions < 0 then Some("maxAllowedRepetitions")
    else None
  }

  /** A candidate that validated without an exception and was not Valid, so the retry loop went on. */
  predicate Rejected(s: string, maxGcContent: real, k: int, m: int, r: int)
  {
    && k >= 0 && m >= 0 && r >= 0
    && Status(s, maxGcContent, k, m, r).Success?
    && Status(s, maxGcContent, k, m, r).value != Valid
  }

  /**
   Checks the parameters, then tries candidates for attempts 0 to maxAttempts, that is up to
   maxAttempts + 1 tries, returning the first valid one with the index of its attempt. The
   ghost `tried` lists the candidates drawn, in order.
   */
  method Generate(
    len: int,
    maxAttempts: int := 1000,
    allowHomopolymers: bool := false,
    maxGcContent: real := 0.5,
    maxComplementaryBases: int := 8,
    minRepetitiveSequenceLength: int := 3,
    maxAllowedRepetitions: int := 1
  ) returns (result: Result<Generated, Exception>, ghost tried: seq<string>)
    ensures var e := ParameterError(len, maxAttempts, maxGcContent, maxComplementaryBases,
                                    minRepetitiveSequenceLength, maxAllowedRepetitions);
            e.Some? ==> result == Failure(ArgumentOutOfRange(e.value)) && tried == []
    ensures result.Success? && result.value.Found? ==>
      var key := result.value.key;
      && 0 <= result.value.attempt <= maxAttempts
      && |key| == len
      && AllBases(key)
      && maxComplementaryBases >= 0 && minRepetitiveSequenceLength >= 1 && maxAllowedRepetitions >= 1
      && Status(key, maxGcContent, maxComplementaryBases, minRepetitiveSequenceLength, maxAllowedRepetitions)
         == Success(Valid)
      && StructurallySound(key, maxGcContent, maxComplementaryBases, minRepetitiveSequenceLength, maxAllowedRepetitions)
    ensures result.Success? && result.value.Found? ==>
      && |tried| == result.value.attempt + 1
      && tried[|tried| - 1] == result.value.key
      && forall j :: 0 <= j < |tried| - 1 ==>
           Rejected(tried[j], maxGcContent, maxComplementaryBases, minRepetitiveSequenceLength, maxAllowedRepetitions)
    ensures result.Success? && result.value.Exhausted? ==>
      && result.value.attempt == maxAttempts
      && |tried| == maxAttempts + 1
      && forall j :: 0 <= j < |tried| ==>
           Rejected(tried[j], maxGcContent, maxComplementaryBases, minRepetitiveSequenceLength, maxAllowedRepetitions)
    ensures forall j :: 0 <= j < |tried| ==>
      |tried[j]| == len && AllBases(tried[j]) && (!allowHomopolymers ==> !HasHomopolymer(tried[j]))
    ensures result.Failure? && ParameterError(len, maxAttempts, maxGcContent, maxComplementaryBases,
                                              minRepetitiveSequenceLength, maxAllowedRepetitions).None? ==>
      maxAllowedRepetitions == 0 && result.error == ArgumentOutOfRange("length")
  {
    tried := [];
    var e := ParameterError(len, maxAttempts, maxGcContent, maxComplementaryBases,
                            minRepetitiveSequenceLength, maxAllowedRepetitions);
    if e.Some? {
      return Failure(ArgumentOutOfRange(e.value)), tried;
    }

    var attempt := -1;
    while attempt < maxAttempts
      invariant -1 <= attempt <= maxAttempts
      invariant |tried| == attempt + 1
      invariant forall j :: 0 <= j < |tried| ==>
        Rejected(tried[j], maxGcContent, maxComplementaryBases, minRepetitiveSequenceLength, maxAllowedRepetitions)
      invariant forall j :: 0 <= j < |tried| ==>
        |tried[j]| == len && AllBases(tried[j]) && (!allowHomopolymers ==> !HasHomopolymer(tried[j]))
    {
      attempt := attempt + 1;

      var str;
      if allowHomopolymers {
        str := RandomString(len);
      } else {
        str := RandomStringWithoutHomopolymers(len);
      }
      tried := tried + [str];

      var status := Validate(str, maxGcContent, maxComplementaryBases, minRepetitiveSequenceLength, maxAllowedRepetitions);
      StatusMeaning(str, maxGcContent, maxComplementaryBases, minRepetitiveSequenceLength, maxAllowedRepetitions);
      if status.Failure? {
        return Failure(status.error), tried;
      }
      if status.value != Valid {
        continue;
      }
      return Success(Found(str, attempt)), tried;
    }
    return Success(Exhausted(attempt)), tried;
  }
}
