/** The two string operations of Rust's `str` that the search relies on:
    `contains` (is the pattern a contiguous substring?) and
    `replacen(pat, to, 1)` (rewrite the leftmost occurrence only).
    Strings are sequences of Unicode scalar values; substring search on
    valid UTF-8 bytes agrees with substring search on scalar values. */
module Text {

  datatype Option<T> = None | Some(value: T)

  /** `q` occurs in `s` starting at index `i`. */
  predicate OccursAt(s: string, q: string, i: nat) {
    i + |q| <= |s| && s[i..i + |q|] == q
  }

  /** `i` is the leftmost index at which `q` occurs in `s`. */
  predicate IsFirstOccurrence(s: string, q: string, i: nat) {
    OccursAt(s, q, i) && forall j: nat :: j < i ==> !OccursAt(s, q, j)
  }

  /** Occurrences in `s` at positions past 0 are the occurrences in `s[1..]`, shifted. */
  lemma OccursInTail(s: string, q: string)
    requires |s| > 0
    ensures forall j: nat :: 1 <= j ==> (OccursAt(s, q, j) <==> OccursAt(s[1..], q, j - 1))
  {
  }

  /** The leftmost occurrence of `q` in `s`, as `str::find` reports it. */
  function FirstOccurrence(s: string, q: string): (r: Option<nat>)
    ensures r.Some? ==> r.value + |q| <= |s|
    decreases |s|
  {
    if OccursAt(s, q, 0) then Some(0)
    else if |s| == 0 then None
    else
      match FirstOccurrence(s[1..], q)
      case None => None
      case Some(k) => Some(k + 1)
  }

  /** `FirstOccurrence` finds the leftmost occurrence when there is one and
      reports none only when the pattern occurs nowhere. */
  lemma {:induction false} FirstOccurrenceSpec(s: string, q: string)
    ensures FirstOccurrence(s, q).Some? ==> IsFirstOccurrence(s, q, FirstOccurrence(s, q).value)
    ensures FirstOccurrence(s, q).None? ==> forall j: nat :: !OccursAt(s, q, j)
    decreases |s|
  {
    if !OccursAt(s, q, 0) && |s| > 0 {
      OccursInTail(s, q);
      FirstOccurrenceSpec(s[1..], q);
    }
  }

  /** `str::contains`: does `q` occur anywhere in `s`? */
  function Contains(s: string, q: string): bool
  {
    FirstOccurrence(s, q).Some?
  }

  /** `contains` holds exactly when the pattern occurs at some position. */
  lemma ContainsIff(s: string, q: string)
    ensures Contains(s, q) <==> exists i: nat :: OccursAt(s, q, i)
  {
    FirstOccurrenceSpec(s, q);
  }

  /** `str::replacen(pat, to, 1)`: the leftmost occurrence of `pat` is
      replaced by `to`; without an occurrence the string is unchanged. */
  function ReplaceFirst(s: string, pat: string, to: string): string
  {
    match FirstOccurrence(s, pat)
    case None => s
    case Some(i) => s[..i] + to + s[i + |pat|..]
  }

  /** `replacen(pat, to, 1)` leaves a string without `pat` unchanged and
      otherwise rewrites exactly the leftmost occurrence, keeping the text
      before and after it. */
  lemma ReplaceFirstSpec(s: string, pat: string, to: string)
    ensures (forall i: nat :: !OccursAt(s, pat, i)) ==> ReplaceFirst(s, pat, to) == s
    ensures forall i: nat :: IsFirstOccurrence(s, pat, i) ==>
      ReplaceFirst(s, pat, to) == s[..i] + to + s[i + |pat|..]
  {
    FirstOccurrenceSpec(s, pat);
  }

  /** The empty pattern occurs at position 0 of every string, so
      `contains("")` always holds and `replacen("", to, 1)` prepends `to`. */
  lemma EmptyPatternFirstAtZero(s: string, to: string)
    ensures Contains(s, "")
    ensures FirstOccurrence(s, "") == Some(0)
    ensures ReplaceFirst(s, "", to) == to + s
  {
  }

  /** An occurrence inside a suffix `t` is an occurrence in `p + t`, so the
      leftmost occurrence in `p + t` is no later than the shifted leftmost
      occurrence in `t`. */
  lemma FirstOccurrenceInSuffix(p: string, t: string, q: string, k: nat)
    requires OccursAt(t, q, k)
    ensures Contains(p + t, q)
    ensures FirstOccurrence(p + t, q).Some?
    ensures FirstOccurrence(p + t, q).value <= |p| + k
  {
    assert (p + t)[|p| + k..|p| + k + |q|] == t[k..k + |q|];
    assert OccursAt(p + t, q, |p| + k);
    FirstOccurrenceSpec(p + t, q);
  }
}
