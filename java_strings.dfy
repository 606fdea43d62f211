/**
 * The three java.lang.String operations the admission filter relies on:
 * `contains`, `split(",")` (only its first element is used) and `trim`.
 */
module JavaStrings {

  /** `p` is a prefix of `s`. */
  predicate StartsWith(s: string, p: string)
  {
    |p| <= |s| && s[..|p|] == p
  }

  /** String.contains: `sub` occurs somewhere in `s`, scanning from the left. */
  predicate Contains(s: string, sub: string)
    decreases |s|
  {
    StartsWith(s, sub) || (|s| > 0 && Contains(s[1..], sub))
  }

  /** The reference meaning of an occurrence: some slice of `s` equals `sub`. */
  ghost predicate OccursAt(s: string, sub: string, i: int)
  {
    0 <= i && i + |sub| <= |s| && s[i..i + |sub|] == sub
  }

  /** The left-to-right scan finds `sub` exactly when it occurs at some index. */
  lemma {:induction false} ContainsIffOccurs(s: string, sub: string)
    ensures Contains(s, sub) <==> exists i :: OccursAt(s, sub, i)
    decreases |s|
  {
    if StartsWith(s, sub) {
      assert OccursAt(s, sub, 0);
    } else if |s| > 0 {
      ContainsIffOccurs(s[1..], sub);
      assert !OccursAt(s, sub, 0) by {
        if |sub| <= |s| { assert s[0..|sub|] == s[..|sub|]; }
      }
      forall i | 1 <= i
        ensures OccursAt(s, sub, i) <==> OccursAt(s[1..], sub, i - 1)
      {
        if i + |sub| <= |s| { assert s[1..][i - 1..i - 1 + |sub|] == s[i..i + |sub|]; }
      }
      if Contains(s[1..], sub) {
        var i :| OccursAt(s[1..], sub, i);
        assert OccursAt(s, sub, i + 1);
      }
      if exists i :: OccursAt(s, sub, i) {
        var i :| OccursAt(s, sub, i);
        assert OccursAt(s[1..], sub, i - 1);
      }
    }
  }

  /** Substring, not prefix, matching: `sub` is found inside any `x + sub + y`. */
  lemma ContainsInfix(x: string, sub: string, y: string)
    ensures Contains(x + sub + y, sub)
  {
    var s := x + sub + y;
    assert s[|x|..|x| + |sub|] == sub;
    assert OccursAt(s, sub, |x|);
    ContainsIffOccurs(s, sub);
  }

  /** An occurrence of a string carries every occurrence of its own substrings. */
  lemma ContainsTransitive(s: string, mid: string, sub: string)
    requires Contains(s, mid) && Contains(mid, sub)
    ensures Contains(s, sub)
  {
    ContainsIffOccurs(s, mid);
    ContainsIffOccurs(mid, sub);
    var i :| OccursAt(s, mid, i);
    var j :| OccursAt(mid, sub, j);
    forall k | 0 <= k < |sub|
      ensures s[i + j + k] == sub[k]
    {
      assert sub[k] == mid[j + k];
      assert mid[j + k] == s[i..i + |mid|][j + k];
    }
    assert s[i + j..i + j + |sub|] == sub;
    assert OccursAt(s, sub, i + j);
    ContainsIffOccurs(s, sub);
  }

  /** Every character of a string found in `s` is a character of `s`. */
  lemma ContainsChars(s: string, sub: string, c: char)
    requires Contains(s, sub) && c in sub
    ensures c in s
  {
    ContainsIffOccurs(s, sub);
    var i :| OccursAt(s, sub, i);
    var j :| 0 <= j < |sub| && sub[j] == c;
    assert s[i..i + |sub|][j] == s[i + j];
  }

  /** The characters String.trim removes: every code point up to U+0020. */
  predicate IsTrimmable(c: char)
  {
    c <= ' '
  }

  /** `s` begins and ends with a character trim keeps (or is empty). */
  predicate IsTrimmed(s: string)
  {
    s == [] || (!IsTrimmable(s[0]) && !IsTrimmable(s[|s| - 1]))
  }

  /** Every character of `s` is one trim removes. */
  predicate IsBlank(s: string)
  {
    forall k :: 0 <= k < |s| ==> IsTrimmable(s[k])
  }

  /**
   * The first index from `st` on that holds a character trim keeps, or the
   * end: String.trim's forward scan.
   */
  function SkipLeading(s: string, st: nat): (n: nat)
    requires st <= |s|
    ensures st <= n <= |s|
    ensures forall k :: st <= k < n ==> IsTrimmable(s[k])
    ensures n == |s| || !IsTrimmable(s[n])
    decreases |s| - st
  {
    if st < |s| && IsTrimmable(s[st]) then SkipLeading(s, st + 1) else st
  }

  /**
   * The end index once the trimmable characters before `len` are dropped,
   * never moving below `st`: String.trim's backward scan.
   */
  function SkipTrailing(s: string, st: nat, len: nat): (n: nat)
    requires st <= len <= |s|
    ensures st <= n <= len
    ensures forall k :: n <= k < len ==> IsTrimmable(s[k])
    ensures n == st || !IsTrimmable(s[n - 1])
    decreases len
  {
    if st < len && IsTrimmable(s[len - 1]) then SkipTrailing(s, st, len - 1) else len
  }

  /** `r` is s[i..j], and everything before i and from j on is blank. */
  predicate IsBlankBoundedSlice(s: string, i: int, j: int, r: string)
  {
    && 0 <= i <= j <= |s| && r == s[i..j]
    && (forall k :: 0 <= k < i ==> IsTrimmable(s[k]))
    && (forall k :: j <= k < |s| ==> IsTrimmable(s[k]))
  }

  /**
   * String.trim: the slice s[i..j] that is left once the leading blanks
   * (all of s[..i]) and the trailing blanks (all of s[j..]) are removed.
   */
  function Trim(s: string): (r: string)
    ensures IsTrimmed(r)
    ensures exists i, j :: IsBlankBoundedSlice(s, i, j, r)
    ensures forall c :: c in r ==> c in s
    ensures (forall c :: c in s ==> !IsTrimmable(c)) ==> r == s
  {
    var st := SkipLeading(s, 0);
    var len := SkipTrailing(s, st, |s|);
    ScannedSliceIsTrim(s, st, len);
    BlankFreeScans(s);
    s[st..len]
  }

  /** Where the two scans stop, the slice between them is blank-bounded and trimmed. */
  lemma ScannedSliceIsTrim(s: string, st: int, len: int)
    requires 0 <= st <= len <= |s|
    requires (forall k :: 0 <= k < st ==> IsTrimmable(s[k])) && (st == |s| || !IsTrimmable(s[st]))
    requires (forall k :: len <= k < |s| ==> IsTrimmable(s[k])) && (len == st || !IsTrimmable(s[len - 1]))
    ensures IsTrimmed(s[st..len])
    ensures IsBlankBoundedSlice(s, st, len, s[st..len])
    ensures forall c :: c in s[st..len] ==> c in s
  {
    SliceKeepsChars(s, st, len);
  }

  /** Without a blank in `s`, neither scan moves. */
  lemma BlankFreeScans(s: string)
    ensures (forall c :: c in s ==> !IsTrimmable(c)) ==>
      SkipLeading(s, 0) == 0 && SkipTrailing(s, 0, |s|) == |s| && s[0..|s|] == s
  {
    if forall c :: c in s ==> !IsTrimmable(c) {
      forall k | 0 <= k < |s| ensures !IsTrimmable(s[k]) { assert s[k] in s; }
      SkipLeadingStopsAt(s, 0, 0);
      SkipTrailingStopsAt(s, 0, |s|, |s|);
    }
  }

  /** A slice holds only characters of the string it is cut from. */
  lemma SliceKeepsChars(s: string, i: int, j: int)
    requires 0 <= i <= j <= |s|
    ensures forall c :: c in s[i..j] ==> c in s
  {
    forall c | c in s[i..j] ensures c in s {
      var k :| 0 <= k < j - i && s[i..j][k] == c;
      assert s[i + k] == c;
    }
  }

  /** The forward scan stops at the first kept character from `st` on, and only there. */
  lemma {:induction false} SkipLeadingStopsAt(s: string, st: nat, n: nat)
    requires st <= n <= |s|
    requires forall k :: st <= k < n ==> IsTrimmable(s[k])
    requires n == |s| || !IsTrimmable(s[n])
    ensures SkipLeading(s, st) == n
    decreases |s| - st
  {
    if st < n {
      assert IsTrimmable(s[st]);
      SkipLeadingStopsAt(s, st + 1, n);
    }
  }

  /** The backward scan stops after the last kept character before `len`, and only there. */
  lemma {:induction false} SkipTrailingStopsAt(s: string, st: nat, len: nat, n: nat)
    requires st <= n <= len <= |s|
    requires forall k :: n <= k < len ==> IsTrimmable(s[k])
    requires n == st || !IsTrimmable(s[n - 1])
    ensures SkipTrailing(s, st, len) == n
    decreases len
  {
    if n < len {
      assert IsTrimmable(s[len - 1]);
      SkipTrailingStopsAt(s, st, len - 1, n);
    }
  }

  /** trim of a padded value is the value: only the padding at either end goes. */
  lemma TrimOfPadded(p: string, a: string, q: string)
    requires IsBlank(p) && IsBlank(q) && IsTrimmed(a)
    ensures Trim(p + a + q) == a
  {
    var s := p + a + q;
    var st := |p| + (if a == [] then |q| else 0);
    var len := st + |a|;
    forall k | 0 <= k < st ensures IsTrimmable(s[k]) {
      if k < |p| { assert s[k] == p[k]; } else { assert s[k] == q[k - |p| - |a|]; }
    }
    if a != [] {
      assert s[st] == a[0];
    }
    SkipLeadingStopsAt(s, 0, st);
    forall k | len <= k < |s| ensures IsTrimmable(s[k]) {
      assert s[k] == q[k - |p| - |a|];
    }
    if a != [] {
      assert s[len - 1] == a[|a| - 1];
    }
    SkipTrailingStopsAt(s, st, |s|, len);
    assert s[st..len] == a;
  }

  /** `n` ends the first field of `s`: no comma before it, and a comma or the end at it. */
  predicate EndsFirstField(s: string, n: int)
  {
    0 <= n <= |s| && (forall k :: 0 <= k < n ==> s[k] != ',') && (n == |s| || s[n] == ',')
  }

  /** The text before the first comma: element 0 of `split(",")` when that array is not empty. */
  function FirstField(s: string): (r: string)
    ensures ',' !in r
    ensures |r| <= |s| && r == s[..|r|]
    ensures |r| == |s| || s[|r|] == ','
  {
    if s == [] || s[0] == ',' then [] else [s[0]] + FirstField(s[1..])
  }

  /** The first field is s[..n] for the one `n` that ends it. */
  lemma FirstFieldUnique(s: string, n: int)
    requires EndsFirstField(s, n)
    ensures FirstField(s) == s[..n]
  {
  }

  /**
   * `split(",")` drops trailing empty strings, so it yields an empty array
   * exactly when the input is non-empty and made only of commas (the empty
   * input gives the one-element array [""]).
   */
  predicate SplitIsEmpty(s: string)
  {
    |s| > 0 && forall i :: 0 <= i < |s| ==> s[i] == ','
  }

  /** A field followed by a comma is what FirstField returns, whatever follows. */
  lemma {:induction false} FirstFieldOfJoin(w: string, rest: string)
    requires ',' !in w
    ensures FirstField(w + "," + rest) == w
    decreases |w|
  {
    if w != [] {
      assert (w + "," + rest)[1..] == w[1..] + "," + rest;
      FirstFieldOfJoin(w[1..], rest);
    } else {
      assert (w + "," + rest)[0] == ',';
    }
  }
}
