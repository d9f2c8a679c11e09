/** strcmp on strings without NUL characters. */
module Strings {
  /** The sign of strcmp. */
  function Cmp(a: string, b: string): int
    decreases |a|
  {
    if a == "" then (if b == "" then 0 else -1)
    else if b == "" then 1
    else if a[0] < b[0] then -1
    else if b[0] < a[0] then 1
    else Cmp(a[1..], b[1..])
  }

  lemma {:induction false} CmpSigns(a: string, b: string)
    ensures Cmp(a, b) == -Cmp(b, a)
    ensures -1 <= Cmp(a, b) <= 1
    ensures Cmp(a, b) == 0 <==> a == b
    decreases |a|
  {
    if a == "" || b == "" {
    } else {
      CmpSigns(a[1..], b[1..]);
      assert a == [a[0]] + a[1..] && b == [b[0]] + b[1..];
    }
  }

  lemma {:induction false} CmpTrans(a: string, b: string, c: string)
    requires Cmp(a, b) <= 0 && Cmp(b, c) <= 0
    ensures Cmp(a, c) <= 0
    ensures Cmp(a, b) < 0 || Cmp(b, c) < 0 ==> Cmp(a, c) < 0
    decreases |a|
  {
    if a != "" && b != "" && c != "" && a[0] == b[0] == c[0] {
      CmpTrans(a[1..], b[1..], c[1..]);
    }
  }

  /** Up to some place the two are the same, and there the first has ended or has the smaller character. */
  ghost predicate EarlierAt(a: string, b: string, k: nat) {
    k <= |a| && k < |b| && a[..k] == b[..k] && (k == |a| || a[k] < b[k])
  }

  ghost predicate Earlier(a: string, b: string) {
    exists k :: EarlierAt(a, b, k)
  }

  lemma SameStart(a: string, b: string, k: nat)
    requires EarlierAt(a, b, k)
    ensures b != "" && (a == "" || a[0] <= b[0]) && (k > 0 ==> a != "" && a[0] == b[0])
  {
    if k > 0 {
      assert a[..k][0] == b[..k][0];
    }
  }

  /** What strcmp puts first. */
  lemma {:induction false} CmpExact(a: string, b: string)
    ensures Cmp(a, b) < 0 <==> Earlier(a, b)
    decreases |a|
  {
    if a == "" || b == "" || a[0] != b[0] {
      if b != "" && (a == "" || a[0] < b[0]) {
        assert EarlierAt(a, b, 0);
      }
      if k: nat :| EarlierAt(a, b, k) {
        SameStart(a, b, k);
      }
    } else {
      CmpExact(a[1..], b[1..]);
      if k: nat :| EarlierAt(a[1..], b[1..], k) {
        assert a[..k + 1] == [a[0]] + a[1..][..k] && b[..k + 1] == [b[0]] + b[1..][..k];
        assert EarlierAt(a, b, k + 1);
      }
      if k: nat :| EarlierAt(a, b, k) {
        assert k > 0;
        assert a[1..][..k - 1] == a[..k][1..] && b[1..][..k - 1] == b[..k][1..];
        assert EarlierAt(a[1..], b[1..], k - 1);
      }
    }
  }

  /** A string comes before every longer string it begins. */
  lemma {:induction false} PrefixFirst(a: string, b: string)
    requires a < b
    ensures Cmp(a, b) < 0
    decreases |a|
  {
    if a == "" {
    } else {
      assert a[0] == b[0];
      PrefixFirst(a[1..], b[1..]);
    }
  }
}
