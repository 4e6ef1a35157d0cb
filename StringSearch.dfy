/**
 Ordinal substring search, as the key generator uses `string.IndexOf(value, startIndex)`
 and `string.Substring`: where a pattern occurs, the first occurrence from a start index,
 and how many (possibly overlapping) occurrences there are from a start index on.
 */
module StringSearch {

  /** `p` occurs in `s` at start index `j`. */
  predicate OccursAt(s: string, p: string, j: int)
  {
    0 <= j && j + |p| <= |s| && s[j..j + |p|] == p
  }

  /**
   `s.IndexOf(p, start)`: the first start index at or after `start` where `p` occurs,
   or -1 when there is none. The empty pattern is found at `start` itself.
   */
  function IndexOf(s: string, p: string, start: nat): (r: int)
    requires start <= |s|
    ensures r == -1 || (start <= r && OccursAt(s, p, r))
    ensures forall j :: start <= j && (r == -1 || j < r) ==> !OccursAt(s, p, j)
    decreases |s| - start
  {
    if start + |p| > |s| then -1
    else if s[start..start + |p|] == p then start
    else IndexOf(s, p, start + 1)
  }

  /** The number of start indices at or after `start` where `p` occurs; overlapping occurrences all count. */
  function CountFrom(s: string, p: string, start: nat): nat
    decreases |s| + 1 - start
  {
    if start + |p| > |s| then 0
    else (if OccursAt(s, p, start) then 1 else 0) + CountFrom(s, p, start + 1)
  }

  /** Counting from `start` is the same as counting from the first occurrence that IndexOf finds. */
  lemma {:induction false} CountFromSkipsToIndexOf(s: string, p: string, start: nat)
    requires start <= |s|
    ensures var r := IndexOf(s, p, start);
            CountFrom(s, p, start) == if r == -1 then 0 else CountFrom(s, p, r)
    decreases |s| - start
  {
    if start + |p| > |s| {
    } else if s[start..start + |p|] == p {
    } else {
      CountFromSkipsToIndexOf(s, p, start + 1);
    }
  }

  /** The count is positive exactly when the pattern occurs somewhere at or after `start`. */
  lemma {:induction false} CountFromPositive(s: string, p: string, start: nat)
    ensures CountFrom(s, p, start) > 0 <==> exists j :: start <= j && OccursAt(s, p, j)
    decreases |s| + 1 - start
  {
    if start + |p| > |s| {
      forall j | start <= j ensures !OccursAt(s, p, j) { }
    } else {
      CountFromPositive(s, p, start + 1);
      if CountFrom(s, p, start) > 0 && !OccursAt(s, p, start) {
        var j :| start + 1 <= j && OccursAt(s, p, j);
      }
      if exists j :: start <= j && OccursAt(s, p, j) {
        var j :| start <= j && OccursAt(s, p, j);
        if j > start {
          assert start + 1 <= j;
        }
      }
    }
  }
}
