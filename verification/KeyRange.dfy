// The key range of an operation: the order of keys, the range convention of the
// service, and getPrefix, which must select exactly the keys with a prefix.
module KeyRange {
  import opened Common

  // ---------- the order of keys ----------

  /** The lexicographic order of byte strings. */
  predicate Below(a: bytes, b: bytes) {
    b != [] && (a == [] || a[0] < b[0] || (a[0] == b[0] && Below(a[1..], b[1..])))
  }

  lemma {:induction false} BelowIsTotal(a: bytes, b: bytes)
    ensures Below(a, b) || a == b || Below(b, a)
    ensures !(Below(a, b) && Below(b, a)) && (a == b ==> !Below(a, b))
  {
    if a != [] && b != [] && a[0] == b[0] {
      BelowIsTotal(a[1..], b[1..]);
      assert a == [a[0]] + a[1..] && b == [b[0]] + b[1..];
    }
  }

  lemma {:induction false} BelowIsTransitive(a: bytes, b: bytes, c: bytes)
    requires Below(a, b) && Below(b, c)
    ensures Below(a, c)
  {
    if a != [] && a[0] == b[0] == c[0] {
      BelowIsTransitive(a[1..], b[1..], c[1..]);
    }
  }

  // ---------- the range convention ----------

  /** noPrefixEnd: the range end that stands for no upper bound. */
  const NO_PREFIX_END: bytes := [0]

  /** The keys a range asks for: without an end (nil and empty are alike on the
      wire) only the key itself, with the sentinel all keys from it on,
      otherwise [key, end). */
  predicate InRange(key: bytes, end: Option<bytes>, k: bytes) {
    if end.None? || end.value == [] then k == key
    else if end.value == NO_PREFIX_END then !Below(k, key)
    else !Below(k, key) && Below(k, end.value)
  }

  // ---------- getPrefix ----------

  predicate AllFF(p: bytes) { forall i :: 0 <= i < |p| ==> p[i] == 0xff }

  /** Drops the trailing 0xff bytes and adds one to the byte before them. */
  function PrefixEnd(p: bytes): bytes {
    if p == [] then NO_PREFIX_END
    else
      var i := |p| - 1;
      if p[i] < 0xff then p[..i] + [p[i] + 1] else PrefixEnd(p[..i])
  }

  /** The loop, from the right, on a copy of the key. */
  method GetPrefix(key: array<byte>) returns (r: bytes)
    ensures r == PrefixEnd(key[..])
  {
    var end := new byte[key.Length];
    forall i | 0 <= i < key.Length {
      end[i] := key[i];
    }
    ghost var p := key[..];
    assert p[..key.Length] == p;
    for i := end.Length downto 0
      invariant key[..] == p && end[..] == p
      invariant PrefixEnd(p[..i]) == PrefixEnd(p)
    {
      assert p[..i + 1][..i] == p[..i];
      if end[i] < 0xff {
        end[i] := end[i] + 1;
        return end[..i + 1];
      }
    }
    return NO_PREFIX_END;
  }

  lemma AllFFSplit(p: bytes)
    requires p != []
    ensures AllFF(p) <==> p[0] == 0xff && AllFF(p[1..])
    ensures AllFF(p) <==> p[|p| - 1] == 0xff && AllFF(p[..|p| - 1])
  {
    assert p == [p[0]] + p[1..] == p[..|p| - 1] + [p[|p| - 1]];
  }

  // PrefixEnd from the left.
  lemma {:induction false} PrefixEndFront(p: bytes)
    requires p != []
    ensures AllFF(p) <==> PrefixEnd(p) == NO_PREFIX_END
    ensures AllFF(p[1..]) && p[0] < 0xff ==> PrefixEnd(p) == [p[0] + 1]
    ensures !AllFF(p[1..]) ==> PrefixEnd(p) == [p[0]] + PrefixEnd(p[1..])
  {
    AllFFSplit(p);
    var i := |p| - 1;
    var q := p[..i];
    if i == 0 {
      assert AllFF(p[1..]) && p[..i] == [];
    } else {
      assert p[1..][..i - 1] == q[1..];
      AllFFSplit(p[1..]);
      AllFFSplit(q);
      hide AllFF;
      if p[i] == 0xff {
        PrefixEndFront(q);
        assert PrefixEnd(p) == PrefixEnd(q) && PrefixEnd(p[1..]) == PrefixEnd(q[1..]);
      } else {
        assert PrefixEnd(p) == q + [p[i] + 1] == [p[0]] + (q[1..] + [p[i] + 1]);
        assert PrefixEnd(p)[i] != 0;
      }
    }
  }

  // The loop's answer is an ordinary end exactly when some byte can be raised.
  lemma {:induction false} OrdinaryEndIsNoSentinel(p: bytes)
    ensures PrefixEnd(p) == NO_PREFIX_END <==> AllFF(p)
    ensures !AllFF(p) ==> Below(p, PrefixEnd(p))
  {
    if p != [] {
      PrefixEndFront(p);
      if !AllFF(p) {
        SelectsPrefix(p, p);
      }
    }
  }

  lemma {:induction false} SelectsPrefix(p: bytes, k: bytes)
    requires p != []
    ensures p <= k <==> !Below(k, p) && (AllFF(p) || Below(k, PrefixEnd(p)))
  {
    PrefixEndFront(p);
    var end := PrefixEnd(p);
    if k == [] {
      assert Below(k, p);
    } else {
      assert p == [p[0]] + p[1..] && k == [k[0]] + k[1..];
      assert p <= k <==> p[0] == k[0] && p[1..] <= k[1..];
      assert AllFF(p) <==> p[0] == 0xff && AllFF(p[1..]);
      if |p| > 1 {
        SelectsPrefix(p[1..], k[1..]);
      }
      if !AllFF(p[1..]) {
        assert end[1..] == PrefixEnd(p[1..]);
      } else if p[0] < 0xff {
        assert end[1..] == [] && !Below(k[1..], []);
      }
    }
  }

  // Main result: the range from p to getPrefix(p) holds exactly the keys that
  // start with p.
  lemma {:induction false} PrefixSelection(p: bytes, k: bytes)
    requires p != []
    ensures InRange(p, Some(PrefixEnd(p)), k) <==> p <= k
  {
    SelectsPrefix(p, k);
    PrefixEndFront(p);
    if !AllFF(p) {
      assert PrefixEnd(p) != [];
    }
  }

  // An ordinary end is the least byte string above every key with the prefix.
  lemma {:induction false} PrefixEndIsLeast(p: bytes, e: bytes)
    requires !AllFF(p)
    ensures (forall k: bytes :: p <= k ==> Below(k, e)) <==> e == PrefixEnd(p) || Below(PrefixEnd(p), e)
  {
    var end := PrefixEnd(p);
    BelowIsTotal(e, end);
    if e == end || Below(end, e) {
      forall k: bytes | p <= k ensures Below(k, e) {
        SelectsPrefix(p, k);
        if e != end { BelowIsTransitive(k, end, e); }
      }
    } else {
      SelectsPrefix(p, e);
      BelowIsTotal(e, e);
      if !(p <= e) {
        BelowIsTotal(p, e);
      }
    }
  }

  // The empty prefix: from "\0" on lie all keys but the empty one, and from the
  // empty key on (comparisons do not raise it) lie all keys.
  lemma EmptyPrefix(k: bytes)
    ensures PrefixEnd([]) == NO_PREFIX_END
    ensures InRange([0], Some(NO_PREFIX_END), k) <==> k != []
    ensures InRange([], Some(PrefixEnd([])), k)
  {
    assert InRange([0], Some(NO_PREFIX_END), k) <==> !Below(k, [0]);
    if k != [] {
      assert [0][1..] == [] && !Below(k[1..], []);
    }
  }
}
