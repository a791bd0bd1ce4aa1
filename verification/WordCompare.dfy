/**
  The comparison of two strings by machine words.  It is proved equal to what it computes
  byte by byte for every input, and from that: for which lengths it is the plain comparison.
 */
module WordCompare {
  import opened Bytes

  const WORD: nat := 8

  /** The number of bytes a comparison of `len` bytes may read; at length 8 it reads none. */
  function Padded(len: nat): (p: nat)
    ensures len != WORD ==> p >= len
  {
    if len < WORD then len
    else if len == WORD then 0
    else (len / WORD + 1) * WORD
  }

  /** The first `n` bytes agree. */
  ghost predicate Agree(a: seq<Byte>, b: seq<Byte>, n: nat) {
    n <= |a| && n <= |b| && forall k :: 0 <= k < n ==> a[k] == b[k]
  }

  /** Index of the first mismatch among the first `len` bytes, or `len`. */
  function Mismatch(a: seq<Byte>, b: seq<Byte>, len: nat): (m: nat)
    requires len <= |a| && len <= |b|
    ensures m <= len && Agree(a, b, m) && (m < len ==> a[m] != b[m])
  {
    if len == 0 then 0
    else
      var m := Mismatch(a, b, len - 1);
      if m < len - 1 || a[m] != b[m] then m else len
  }

  /** The comparison as documented: the difference at the first mismatch, 0 if there is none. */
  function Compare(a: seq<Byte>, b: seq<Byte>, len: nat): int
    requires len <= |a| && len <= |b|
  {
    var m := Mismatch(a, b, len);
    if m < len then a[m] as int - b[m] as int else 0
  }

  /** A common NUL in the word of the first mismatch, before it. */
  ghost predicate NulBefore(a: seq<Byte>, m: nat)
    requires m <= |a|
  {
    exists k :: m / WORD * WORD <= k < m && a[k] == 0
  }

  /** What the word comparison yields on every input. */
  ghost function Computed(a: seq<Byte>, b: seq<Byte>, len: nat): int
    requires len == WORD || (len <= |a| && len <= |b|)
  {
    if len == WORD || (len > WORD && NulBefore(a, Mismatch(a, b, len))) then 0
    else Compare(a, b, len)
  }

  /** The value of a word, least significant byte first. */
  function Word(s: seq<Byte>): nat {
    if s == [] then 0 else s[0] + 256 * Word(s[1..])
  }

  lemma {:induction false} WordsDiffer(s: seq<Byte>, t: seq<Byte>)
    requires |s| == |t|
    ensures Word(s) == Word(t) <==> s == t
    decreases |s|
  {
    if s != [] {
      WordsDiffer(s[1..], t[1..]);
      assert s == [s[0]] + s[1..] && t == [t[0]] + t[1..];
    }
  }

  /** The first mismatch is the only index like it. */
  lemma MismatchIs(a: seq<Byte>, b: seq<Byte>, len: nat, m: nat)
    requires len <= |a| && len <= |b| && m <= len
    requires (forall k :: 0 <= k < m ==> a[k] == b[k]) && (m < len ==> a[m] != b[m])
    ensures Mismatch(a, b, len) == m
  {
    var n := Mismatch(a, b, len);
  }

  /** Looks for the mismatch of two differing words, up to a NUL or the end of the strings. */
  method CompareFrom(a: seq<Byte>, b: seq<Byte>, len: nat, block: nat) returns (done: bool, r: int)
    requires len > WORD && len <= |a| && len <= |b|
    requires block * WORD <= len && block * WORD + WORD <= |a| && block * WORD + WORD <= |b|
    requires Agree(a, b, block * WORD)
    requires exists d :: block * WORD <= d < block * WORD + WORD && a[d] != b[d]
    ensures done ==> r == Computed(a, b, len)
    ensures !done ==> Agree(a, b, len)
  {
    done, r := false, 0;
    var pos := block * WORD;
    while pos < len
      invariant block * WORD <= pos <= len && Agree(a, b, pos)
      invariant forall k :: block * WORD <= k < pos ==> a[k] != 0
    {
      if a[pos] != b[pos] || a[pos] == 0 || b[pos] == 0 {
        if a[pos] != b[pos] {
          MismatchIs(a, b, len, pos);
        } else {
          var d :| block * WORD <= d < block * WORD + WORD && a[d] != b[d];
          NulFound(a, b, len, block, pos, d);
        }
        return true, a[pos] as int - b[pos] as int;
      }
      pos := pos + 1;
    }
  }

  /** A common NUL is in the word of the first mismatch, if the strings differ at all. */
  lemma NulFound(a: seq<Byte>, b: seq<Byte>, len: nat, block: nat, pos: nat, d: nat)
    requires WORD < len <= |a| && len <= |b| && d < |a| && d < |b|
    requires block * WORD <= pos < len && Agree(a, b, pos + 1) && a[pos] == 0
    requires block * WORD <= d < block * WORD + WORD && a[d] != b[d]
    ensures Computed(a, b, len) == 0
  {
    var m := Mismatch(a, b, len);
    if m < len {
      assert pos < m <= d;
      assert m / WORD == block;
      assert m / WORD * WORD <= pos < m && a[pos] == 0;
    }
  }

  /** The word-at-a-time comparison; both strings must be readable up to a whole word. */
  method FastCompare(a: seq<Byte>, b: seq<Byte>, len: nat) returns (r: int)
    requires Padded(len) <= |a| && Padded(len) <= |b|
    ensures r == Computed(a, b, len)
  {
    var fast := len / WORD + 1;
    var offset := (fast - 1) * WORD;
    var block := 0;
    if len <= WORD { fast := 0; }
    while block < fast
      invariant block <= fast && Agree(a, b, if block * WORD < len then block * WORD else len)
    {
      var lo := block * WORD;
      WordsDiffer(a[lo..lo + WORD], b[lo..lo + WORD]);
      if Word(a[lo..lo + WORD]) != Word(b[lo..lo + WORD]) {
        DifferSomewhere(a, b, lo);
        var done;
        done, r := CompareFrom(a, b, len, block);
        if done { return r; }
      } else {
        AgreeOn(a, b, lo, lo + WORD);
      }
      block := block + 1;
    }
    while offset < len
      invariant fast != 0 ==> Agree(a, b, len)
      invariant fast == 0 ==> if len == WORD then offset == WORD else offset <= len && Agree(a, b, offset)
    {
      if a[offset] != b[offset] {
        MismatchIs(a, b, len, offset);
        return a[offset] as int - b[offset] as int;
      }
      offset := offset + 1;
    }
    if len != WORD { MismatchIs(a, b, len, len); }
    r := 0;
  }

  lemma DifferSomewhere(a: seq<Byte>, b: seq<Byte>, lo: nat)
    requires lo + WORD <= |a| && lo + WORD <= |b|
    ensures a[lo..lo + WORD] != b[lo..lo + WORD] ==> exists d :: lo <= d < lo + WORD && a[d] != b[d]
  {
  }

  lemma AgreeOn(a: seq<Byte>, b: seq<Byte>, lo: nat, hi: nat)
    requires Agree(a, b, lo) && lo <= hi <= |a| && hi <= |b| && a[lo..hi] == b[lo..hi]
    ensures Agree(a, b, hi)
  {
    forall k | lo <= k < hi ensures a[k] == b[k] {
      assert a[k] == a[lo..hi][k - lo];
    }
  }

  ghost predicate NulFree(a: seq<Byte>, len: nat)
    requires len <= |a|
  {
    forall k :: 0 <= k < len ==> a[k] != 0
  }

  /** Computed and documented comparison agree on all NUL-free strings of a length, except eight. */
  lemma AgreesExceptAtEight(len: nat)
    ensures (forall a: seq<Byte>, b: seq<Byte> ::
               len <= |a| && len <= |b| && NulFree(a, len) ==> Computed(a, b, len) == Compare(a, b, len))
            <==> len != WORD
  {
    if len == WORD {
      var a, b := BlindSpot();
      assert forall k :: 0 <= k < WORD ==> IsTchar(a[k]);
      assert Computed(a, b, len) != Compare(a, b, len);
    } else {
      forall a: seq<Byte>, b: seq<Byte> | len <= |a| && len <= |b| && NulFree(a, len)
        ensures Computed(a, b, len) == Compare(a, b, len)
      {
        assert !NulBefore(a, Mismatch(a, b, len));
      }
    }
  }

  /** Two header names of eight bytes that the word comparison takes for equal. */
  lemma BlindSpot() returns (a: seq<Byte>, b: seq<Byte>)
    ensures |a| == |b| == WORD && AllBytes(a, IsTchar) && AllBytes(b, IsTchar)
    ensures Computed(a, b, WORD) == 0 && Compare(a, b, WORD) == 3
  {
    a := [76, 111, 99, 97, 116, 105, 111, 110];   // Location
    b := [73, 102, 45, 77, 97, 116, 99, 104];     // If-Match
    MismatchIs(a, b, WORD, 0);
  }

  /** Zero is equality, and the sign otherwise orders the strings at their first mismatch. */
  lemma CompareMeans(a: seq<Byte>, b: seq<Byte>, len: nat)
    requires len <= |a| && len <= |b|
    ensures Compare(a, b, len) == 0 <==> a[..len] == b[..len]
    ensures Compare(a, b, len) != 0 ==>
              exists m :: 0 <= m < len && a[..m] == b[..m] && a[m] != b[m] && Compare(a, b, len) == a[m] as int - b[m] as int
  {
    var m := Mismatch(a, b, len);
    if m < len { assert a[..len][m] != b[..len][m]; }
  }

  /** Bytes behind the strings never matter. */
  lemma PaddingIrrelevant(a: seq<Byte>, b: seq<Byte>, c: seq<Byte>, d: seq<Byte>, len: nat)
    requires len <= |a| && len <= |b| && len <= |c| && len <= |d|
    requires a[..len] == c[..len] && b[..len] == d[..len]
    ensures Computed(a, b, len) == Computed(c, d, len)
  {
    assert forall k :: 0 <= k < len ==> a[k] == a[..len][k] == c[k] && b[k] == b[..len][k] == d[k];
    var m := Mismatch(a, b, len);
    MismatchIs(c, d, len, m);
  }
}
