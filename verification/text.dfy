/** String helpers the handlers rely on: lower-casing (Go's strings.ToLower,
    restricted here to ASCII) and substring search (Go's strings.Contains). */
module Text {

  predicate IsUpper(c: char) {
    'A' <= c <= 'Z'
  }

  /** Distance between an upper-case ASCII letter and its lower-case partner. */
  const CaseShift: int := 'a' as int - 'A' as int

  function LowerChar(c: char): (r: char)
    ensures !IsUpper(r)
    ensures !IsUpper(c) ==> r == c
    ensures IsUpper(c) ==> r as int == c as int + CaseShift
  {
    if IsUpper(c) then (c as int + CaseShift) as char else c
  }

  /** ASCII lower-casing: each upper-case letter becomes its lower-case
      partner, every other character is kept, and the length does not change. */
  function Lower(s: string): (r: string)
    ensures |r| == |s|
    ensures forall i :: 0 <= i < |r| ==> !IsUpper(r[i])
    ensures forall i :: 0 <= i < |s| && !IsUpper(s[i]) ==> r[i] == s[i]
    ensures forall i :: 0 <= i < |s| && IsUpper(s[i]) ==> r[i] as int == s[i] as int + CaseShift
  {
    seq(|s|, i requires 0 <= i < |s| => LowerChar(s[i]))
  }

  /** Lower-casing an already lower-cased string changes nothing. */
  lemma LowerIdempotent(s: string)
    ensures Lower(Lower(s)) == Lower(s)
  {
    var t := Lower(s);
    assert forall i :: 0 <= i < |t| ==> Lower(t)[i] == t[i];
  }

  /** `sub` occurs in `s` starting at offset `i`. */
  predicate OccursAt(s: string, sub: string, i: int) {
    0 <= i && i + |sub| <= |s| && s[i..i + |sub|] == sub
  }

  /** Substring search, scanning the candidate offsets from the left. */
  function HasSubstring(s: string, sub: string): (found: bool)
    decreases |s|
  {
    if |sub| > |s| then false
    else if s[..|sub|] == sub then true
    else HasSubstring(s[1..], sub)
  }

  /** Occurrences at offset i >= 1 are the occurrences in the tail, shifted by one. */
  lemma OccursInTail(s: string, sub: string, i: int)
    requires 1 <= |s| && 1 <= i
    ensures OccursAt(s, sub, i) <==> OccursAt(s[1..], sub, i - 1)
  {
    if i + |sub| <= |s| {
      assert s[1..][i - 1..i - 1 + |sub|] == s[i..i + |sub|];
    }
  }

  /** The scan finds a match exactly when some offset holds one. */
  lemma {:induction false} HasSubstringIff(s: string, sub: string)
    ensures HasSubstring(s, sub) <==> exists i :: OccursAt(s, sub, i)
    decreases |s|
  {
    if |sub| > |s| {
    } else if s[..|sub|] == sub {
      assert OccursAt(s, sub, 0);
    } else {
      HasSubstringIff(s[1..], sub);
      if exists i :: OccursAt(s, sub, i) {
        var i :| OccursAt(s, sub, i);
        assert i != 0;
        OccursInTail(s, sub, i);
        assert OccursAt(s[1..], sub, i - 1);
      }
      if exists i :: OccursAt(s[1..], sub, i) {
        var i :| OccursAt(s[1..], sub, i);
        OccursInTail(s, sub, i + 1);
        assert OccursAt(s, sub, i + 1);
      }
    }
  }

  /** Every string contains the empty string. */
  lemma EmptyIsSubstring(s: string)
    ensures HasSubstring(s, "")
  {
  }
}
