/** Byte order on keys, and the range of keys that share a prefix. */
module Prefix {
  import opened Bytes
  import opened Commands

  /** Lexicographic order; a proper prefix comes first. */
  predicate Less(a: Bytes, b: Bytes) {
    if a == [] then b != []
    else b != [] && (a[0] < b[0] || (a[0] == b[0] && Less(a[1..], b[1..])))
  }

  predicate AtLeast(k: Bytes, p: Bytes) {
    !Less(k, p)
  }

  lemma {:induction false} LessIsTotal(a: Bytes, b: Bytes)
    ensures !(Less(a, b) && Less(b, a)) && (Less(a, b) || Less(b, a) || a == b) && !Less(a, a)
  {
    if a != [] && b != [] && a[0] == b[0] {
      LessIsTotal(a[1..], b[1..]);
      assert a == [a[0]] + a[1..] && b == [b[0]] + b[1..];
    }
    if a != [] && a != b {
      LessIsTotal(a[1..], a[1..]);
    } else if a != [] {
      LessIsTotal(a[1..], b[1..]);
    }
  }

  lemma {:induction false} LessIsTransitive(a: Bytes, b: Bytes, c: Bytes)
    requires Less(a, b) && Less(b, c)
    ensures Less(a, c)
  {
    if a != [] && a[0] == b[0] == c[0] {
      LessIsTransitive(a[1..], b[1..], c[1..]);
    }
  }

  /** The range end that stands for "no end". */
  const NO_PREFIX_END: Bytes := [0]

  /** No byte of the prefix can be incremented. */
  predicate AllMax(p: Bytes) {
    forall i | 0 <= i < |p| :: p[i] == 255
  }

  /** The keys a request for the range [key, end) means; the end [0] means all keys from key on. */
  predicate InRange(key: Bytes, end: Bytes, k: Bytes) {
    AtLeast(k, key) && (end == NO_PREFIX_END || Less(k, end))
  }

  /** The end that getPrefix computes: increment the last byte that can be, and drop what follows it. */
  function PrefixEnd(p: Bytes): Bytes {
    if p == [] then NO_PREFIX_END
    else if p[|p| - 1] < 255 then p[..|p| - 1] + [p[|p| - 1] + 1]
    else PrefixEnd(p[..|p| - 1])
  }

  /** The same from the front: a first byte with an end for the rest, or one that must itself be incremented. */
  lemma {:induction false} PrefixEndFromFront(p: Bytes)
    requires p != []
    ensures PrefixEnd(p) ==
            if !AllMax(p[1..]) then [p[0]] + PrefixEnd(p[1..]) else if p[0] < 255 then [p[0] + 1] else NO_PREFIX_END
  {
    var n := |p| - 1;
    if n > 0 {
      var q := p[..n];
      assert p[1..][..n - 1] == q[1..] && p[1..][n - 1] == p[n];
      if p[n] == 255 {
        PrefixEndFromFront(q);
        MaxButLast(p[1..]);
      } else {
        assert p[1..][n - 1] != 255;
        assert p[..n] == [p[0]] + p[1..][..n - 1];
      }
    } else if p[0] == 255 {
      assert p[..n] == [];
    }
  }

  lemma MaxButLast(s: Bytes)
    requires s != [] && s[|s| - 1] == 255
    ensures AllMax(s) <==> AllMax(s[..|s| - 1])
  {
    if AllMax(s[..|s| - 1]) {
      forall i | 0 <= i < |s| ensures s[i] == 255 {
        assert i < |s| - 1 ==> s[i] == s[..|s| - 1][i];
      }
    }
  }

  lemma {:induction false} EndIsOpenExactly(p: Bytes)
    ensures PrefixEnd(p) == NO_PREFIX_END <==> AllMax(p)
  {
    if p != [] {
      PrefixEndFromFront(p);
      EndIsOpenExactly(p[1..]);
      NonEmptyEnd(p[1..]);
      assert p == [p[0]] + p[1..];
      assert AllMax(p) <==> p[0] == 255 && AllMax(p[1..]);
    }
  }

  lemma {:induction false} NonEmptyEnd(p: Bytes)
    ensures PrefixEnd(p) != []
  {
    if p != [] {
      NonEmptyEnd(p[..|p| - 1]);
    }
  }

  lemma PrefixStep(p: Bytes, k: Bytes)
    requires p != []
    ensures HasPrefix(k, p) <==> k != [] && k[0] == p[0] && HasPrefix(k[1..], p[1..])
  {
    if k != [] && k[0] == p[0] && HasPrefix(k[1..], p[1..]) {
      assert p == [p[0]] + p[1..] && k == [k[0]] + k[1..];
    }
  }

  /** A key has the prefix exactly when it lies in the range from the prefix to its computed end. */
  lemma {:induction false} PrefixRangeExact(p: Bytes, k: Bytes)
    ensures HasPrefix(k, p) <==> InRange(p, PrefixEnd(p), k)
  {
    if p != [] {
      PrefixStep(p, k);
      PrefixEndFromFront(p);
      EndIsOpenExactly(p);
      EndIsOpenExactly(p[1..]);
      NonEmptyEnd(p[1..]);
      if k != [] {
        PrefixRangeExact(p[1..], k[1..]);
        if !AllMax(p[1..]) {
          assert PrefixEnd(p)[1..] == PrefixEnd(p[1..]);
          assert Less(k, PrefixEnd(p)) <==> k[0] < p[0] || (k[0] == p[0] && Less(k[1..], PrefixEnd(p[1..])));
          assert !AllMax(p) by {
            var i :| 0 <= i < |p[1..]| && p[1..][i] != 255;
            assert p[i + 1] == p[1..][i];
          }
        } else if p[0] < 255 {
          assert PrefixEnd(p)[1..] == [];
          assert Less(k, PrefixEnd(p)) <==> k[0] <= p[0];
        }
      }
    }
  }

  /** getPrefix: scan a copy backwards for a byte to increment. */
  method GetPrefix(key: Bytes) returns (end: Bytes)
    ensures end == PrefixEnd(key)
  {
    var copied := new byte[|key|](i requires 0 <= i < |key| => key[i]);
    assert copied[..] == key && key[..|key|] == key;
    var i := |key| - 1;
    while i >= 0
      invariant -1 <= i < |key| && copied[..] == key && PrefixEnd(key) == PrefixEnd(key[..i + 1])
    {
      assert key[..i + 1][..i] == key[..i];
      if copied[i] < 0xff {
        copied[i] := copied[i] + 1;
        assert copied[..i + 1] == key[..i] + [key[i] + 1];
        return copied[..i + 1];
      }
      i := i - 1;
    }
    return NO_PREFIX_END;
  }
}
