/**
  The keys and values a cell holds. The source is generic over `K: Ord` and `V`;
  the model fixes the two kinds its tests store: `i32` and `String` (kept as its
  UTF-8 bytes, which is what Rust compares and what bincode writes).
 */
module Datums {
  import opened Basics

  datatype Datum = I32(n: i32) | Str(bytes: Bytes)

  datatype DatumKind = I32Kind | StrKind

  function KindOf(d: Datum): DatumKind {
    match d
    case I32(_) => I32Kind
    case Str(_) => StrKind
  }

  /** Lexicographic order on byte strings: Rust's `Ord` for `str` and `[u8]`. */
  predicate BytesLess(a: seq<byte>, b: seq<byte>)
    decreases |a|
  {
    if |a| == 0 then |b| > 0
    else if |b| == 0 then false
    else a[0] < b[0] || (a[0] == b[0] && BytesLess(a[1..], b[1..]))
  }

  /**
    The key order. Within one kind it is Rust's natural order; a Rust page holds one
    key type only, so the order across kinds (every integer first) is never consulted
    by a page built from keys of one kind.
   */
  predicate Less(a: Datum, b: Datum) {
    match (a, b)
    case (I32(x), I32(y)) => x < y
    case (I32(_), Str(_)) => true
    case (Str(_), I32(_)) => false
    case (Str(x), Str(y)) => BytesLess(x, y)
  }

  predicate StrictlySorted(s: seq<Datum>) {
    forall i, j {:trigger Less(s[i], s[j])} :: 0 <= i < j < |s| ==> Less(s[i], s[j])
  }

  lemma {:induction false} BytesLessIrreflexive(a: seq<byte>)
    ensures !BytesLess(a, a)
    decreases |a|
  {
    if |a| > 0 {
      BytesLessIrreflexive(a[1..]);
    }
  }

  lemma {:induction false} BytesLessTransitive(a: seq<byte>, b: seq<byte>, c: seq<byte>)
    requires BytesLess(a, b) && BytesLess(b, c)
    ensures BytesLess(a, c)
    decreases |a|
  {
    if |a| > 0 && a[0] == b[0] && b[0] == c[0] {
      BytesLessTransitive(a[1..], b[1..], c[1..]);
    }
  }

  lemma {:induction false} BytesLessTotal(a: seq<byte>, b: seq<byte>)
    ensures a == b || BytesLess(a, b) || BytesLess(b, a)
    decreases |a|
  {
    if |a| > 0 && |b| > 0 && a[0] == b[0] {
      BytesLessTotal(a[1..], b[1..]);
      if a[1..] == b[1..] {
        assert a == [a[0]] + a[1..] && b == [b[0]] + b[1..];
      }
    }
  }

  /** `Less` is a strict total order: irreflexive ... */
  lemma LessIrreflexive(a: Datum)
    ensures !Less(a, a)
  {
    if a.Str? {
      BytesLessIrreflexive(a.bytes);
    }
  }

  /** ... transitive ... */
  lemma LessTransitive(a: Datum, b: Datum, c: Datum)
    requires Less(a, b) && Less(b, c)
    ensures Less(a, c)
  {
    if a.Str? && b.Str? && c.Str? {
      BytesLessTransitive(a.bytes, b.bytes, c.bytes);
    }
  }

  /** ... and any two distinct keys are comparable. */
  lemma LessTotal(a: Datum, b: Datum)
    ensures a == b || Less(a, b) || Less(b, a)
  {
    if a.Str? && b.Str? {
      BytesLessTotal(a.bytes, b.bytes);
    }
  }

  lemma LessAsymmetric(a: Datum, b: Datum)
    requires Less(a, b)
    ensures !Less(b, a)
  {
    if Less(b, a) {
      LessTransitive(a, b, a);
      LessIrreflexive(a);
    }
  }

  /** A strictly sorted sequence never holds the same key twice. */
  lemma SortedDistinct(s: seq<Datum>, i: nat, j: nat)
    requires StrictlySorted(s) && i < |s| && j < |s| && i != j
    ensures s[i] != s[j]
  {
    if i < j {
      LessIrreflexive(s[i]);
    } else {
      LessIrreflexive(s[j]);
    }
  }
}
