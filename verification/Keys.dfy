/** Byte-string keys under the order of Go's `bytes.Compare`. */
module Keys {

  type Byte = b: int | 0 <= b < 256

  type Key = seq<Byte>

  /** bytes.Compare(a, b) < 0 */
  predicate Lt(a: Key, b: Key)
  {
    if |b| == 0 then false
    else if |a| == 0 then true
    else if a[0] != b[0] then a[0] < b[0]
    else Lt(a[1..], b[1..])
  }

  /** bytes.Compare(a, b) <= 0 */
  predicate Le(a: Key, b: Key)
  {
    !Lt(b, a)
  }

  lemma {:induction false} LtIrreflexive(a: Key)
    ensures !Lt(a, a)
  {
    if |a| > 0 {
      LtIrreflexive(a[1..]);
    }
  }

  lemma {:induction false} LtTransitive(a: Key, b: Key, c: Key)
    requires Lt(a, b) && Lt(b, c)
    ensures Lt(a, c)
  {
    if |a| > 0 && a[0] == b[0] == c[0] {
      LtTransitive(a[1..], b[1..], c[1..]);
    }
  }

  lemma {:induction false} LtTotal(a: Key, b: Key)
    ensures Lt(a, b) || a == b || Lt(b, a)
  {
    if |a| > 0 && |b| > 0 && a[0] == b[0] {
      LtTotal(a[1..], b[1..]);
      assert a[1..] == b[1..] ==> a == [a[0]] + a[1..] == [b[0]] + b[1..] == b;
    }
  }

  /** The keys agree up to position k, where a ends or has the smaller byte. */
  predicate DecidedAt(a: Key, b: Key, k: nat)
  {
    k <= |a| && k < |b| && a[..k] == b[..k] && (k == |a| || a[k] < b[k])
  }

  /** The order is the one of bytes: the first difference decides, and a proper prefix comes first. */
  lemma {:induction false} LtIsByteOrder(a: Key, b: Key)
    ensures Lt(a, b) <==> exists k: nat :: DecidedAt(a, b, k)
  {
    if |a| == 0 || |b| == 0 || a[0] != b[0] {
      if Lt(a, b) {
        assert DecidedAt(a, b, 0);
      }
      if k: nat :| DecidedAt(a, b, k) {
        assert k > 0 ==> a[..k][0] == b[..k][0];
      }
    } else {
      LtIsByteOrder(a[1..], b[1..]);
      if k: nat :| DecidedAt(a[1..], b[1..], k) {
        assert a[..k + 1] == [a[0]] + a[1..][..k] && b[..k + 1] == [b[0]] + b[1..][..k];
        assert DecidedAt(a, b, k + 1);
      }
      if k: nat :| DecidedAt(a, b, k) {
        assert k > 0;
        assert a[1..][..k - 1] == a[..k][1..] && b[1..][..k - 1] == b[..k][1..];
        assert DecidedAt(a[1..], b[1..], k - 1);
      }
    }
  }

  /** `Lt` is a strict total order whose least element is the empty key. */
  lemma OrderLaws()
    ensures forall a: Key :: !Lt(a, a)
    ensures forall a: Key, b: Key, c: Key :: Lt(a, b) && Lt(b, c) ==> Lt(a, c)
    ensures forall a: Key, b: Key :: Lt(a, b) || a == b || Lt(b, a)
    ensures forall a: Key :: !Lt(a, [])
  {
    forall a: Key ensures !Lt(a, a) { LtIrreflexive(a); }
    forall a: Key, b: Key, c: Key | Lt(a, b) && Lt(b, c) ensures Lt(a, c) { LtTransitive(a, b, c); }
    forall a: Key, b: Key ensures Lt(a, b) || a == b || Lt(b, a) { LtTotal(a, b); }
  }
}
