/** A model of java.lang.String.trim as it is used by NodeBase.setTitle:
    every character whose code is at most U+0020 (space, tab, line breaks
    and the other control characters) is removed from both ends. */
module JavaString {

  /** The characters String.trim removes: code point <= U+0020. */
  predicate IsTrimmable(c: char) {
    c <= ' '
  }

  /** A string made only of trimmable characters (the empty string included). */
  predicate IsBlank(s: string) {
    forall k :: 0 <= k < |s| ==> IsTrimmable(s[k])
  }

  /** s[i..j] is what trimming s leaves: everything before i and from j on is
      trimmable, and a non-empty s[i..j] starts and ends with a character that
      is not. When i == j this says that all of s is trimmable. */
  ghost predicate TrimmedAt(s: string, i: int, j: int) {
    && 0 <= i <= j <= |s|
    && (forall k :: 0 <= k < i ==> IsTrimmable(s[k]))
    && (forall k :: j <= k < |s| ==> IsTrimmable(s[k]))
    && (i < j ==> !IsTrimmable(s[i]) && !IsTrimmable(s[j - 1]))
  }

  /** The first index from st on whose character is not trimmable (|s| if
      there is none): the forward scan of String.trim. */
  function SkipLeading(s: string, st: nat): (k: nat)
    requires st <= |s|
    ensures st <= k <= |s|
    ensures forall m :: st <= m < k ==> IsTrimmable(s[m])
    ensures k < |s| ==> !IsTrimmable(s[k])
    decreases |s| - st
  {
    if st < |s| && IsTrimmable(s[st]) then SkipLeading(s, st + 1) else st
  }

  /** The backward scan of String.trim: lowers len while the character
      before it is trimmable, never below st. */
  function SkipTrailing(s: string, st: nat, len: nat): (k: nat)
    requires st <= len <= |s|
    ensures st <= k <= len
    ensures forall m :: k <= m < len ==> IsTrimmable(s[m])
    ensures st < k ==> !IsTrimmable(s[k - 1])
    decreases len
  {
    if st < len && IsTrimmable(s[len - 1]) then SkipTrailing(s, st, len - 1) else len
  }

  /** String.trim: a contiguous piece of s with the trimmable characters
      removed from both ends. */
  function Trim(s: string): (r: string)
    ensures exists i, j :: TrimmedAt(s, i, j) && r == s[i..j]
  {
    var st := SkipLeading(s, 0);
    var len := SkipTrailing(s, st, |s|);
    assert TrimmedAt(s, st, len);
    s[st..len]
  }

  /** Two trimming positions of the same string give the same result. */
  lemma TrimmedAtUnique(s: string, i: int, j: int, i': int, j': int)
    requires TrimmedAt(s, i, j) && TrimmedAt(s, i', j')
    ensures s[i..j] == s[i'..j']
  {
    if i < j {
      // s[i] is not trimmable, so nothing before i' can be i, and so on.
      assert i' <= i && i <= i';
      assert j' >= j && j >= j';
    }
  }

  /** The positions Trim cuts at, as the two scans find them. */
  lemma TrimPositions(s: string) returns (i: nat, j: nat)
    ensures TrimmedAt(s, i, j) && Trim(s) == s[i..j]
  {
    i := SkipLeading(s, 0);
    j := SkipTrailing(s, i, |s|);
  }

  /** Trim agrees with the declarative description: whatever positions
      describe a trim of s, Trim(s) is the piece between them. */
  lemma TrimIsTrimmedAt(s: string, i: int, j: int)
    requires TrimmedAt(s, i, j)
    ensures Trim(s) == s[i..j]
  {
    var i', j' := TrimPositions(s);
    TrimmedAtUnique(s, i, j, i', j');
  }

  /** The result of Trim is empty or begins and ends with a non-trimmable
      character. */
  lemma TrimEnds(s: string)
    ensures var r := Trim(s); r == [] || (!IsTrimmable(r[0]) && !IsTrimmable(r[|r| - 1]))
  {
    var i, j := TrimPositions(s);
    var r := Trim(s);
    if r != [] {
      assert r[0] == s[i] && r[|r| - 1] == s[j - 1];
    }
  }

  /** A string that neither starts nor ends with a trimmable character is
      left as it is. */
  lemma TrimKeepsTrimmed(r: string)
    requires r == [] || (!IsTrimmable(r[0]) && !IsTrimmable(r[|r| - 1]))
    ensures Trim(r) == r
  {
    // Both scans stop at once.
    assert SkipLeading(r, 0) == 0;
    assert SkipTrailing(r, 0, |r|) == |r|;
    assert r[0..|r|] == r;
  }

  /** Trimming twice is trimming once. */
  lemma TrimIdempotent(s: string)
    ensures Trim(Trim(s)) == Trim(s)
  {
    TrimEnds(s);
    TrimKeepsTrimmed(Trim(s));
  }

  /** Trim leaves nothing exactly when the input is blank. */
  lemma TrimEmptyIffBlank(s: string)
    ensures Trim(s) == [] <==> IsBlank(s)
  {
    if IsBlank(s) {
      assert TrimmedAt(s, 0, 0);
      TrimIsTrimmedAt(s, 0, 0);
    } else {
      var k :| 0 <= k < |s| && !IsTrimmable(s[k]);
      var i, j := TrimPositions(s);
      assert i <= k < j;
    }
  }

  /** The result of Trim is never blank unless it is empty. */
  lemma TrimNotBlank(s: string)
    requires !IsBlank(s)
    ensures Trim(s) != [] && !IsBlank(Trim(s))
  {
    TrimEmptyIffBlank(s);
    TrimEnds(s);
  }
}
