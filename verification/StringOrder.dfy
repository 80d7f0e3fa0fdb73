/** The one strict total order of ids and object names: code-unit order. */
module StringOrder {
  predicate Less(a: string, b: string) {
    if b == "" then false
    else if a == "" then true
    else a[0] < b[0] || (a[0] == b[0] && Less(a[1..], b[1..]))
  }

  lemma {:induction false} LessTransitive(a: string, b: string, c: string)
    requires Less(a, b) && Less(b, c)
    ensures Less(a, c)
  {
    if a != "" && a[0] == b[0] == c[0] {
      LessTransitive(a[1..], b[1..], c[1..]);
    }
  }

  /** Exactly one of a < b, a == b, b < a holds. */
  lemma {:induction false} LessTrichotomy(a: string, b: string)
    ensures Less(a, b) || a == b || Less(b, a)
    ensures !(Less(a, b) && Less(b, a))
    ensures a == b ==> !Less(a, b)
  {
    if a != "" && b != "" {
      LessTrichotomy(a[1..], b[1..]);
      assert a == [a[0]] + a[1..] && b == [b[0]] + b[1..];
    }
  }

  /** The lesser character where two strings first differ. */
  predicate DiffersAt(a: string, b: string, k: nat) {
    k < |a| && k < |b| && a[..k] == b[..k] && a[k] < b[k]
  }

  ghost predicate Differs(a: string, b: string) {
    exists k: nat :: DiffersAt(a, b, k)
  }

  lemma DifferInTail(c: char, x: string, y: string, k: nat)
    ensures DiffersAt([c] + x, [c] + y, k + 1) <==> DiffersAt(x, y, k)
  {
    var a, b := [c] + x, [c] + y;
    if k < |x| && k < |y| {
      assert a[..k + 1] == [c] + x[..k] && b[..k + 1] == [c] + y[..k];
      assert x[..k] == a[..k + 1][1..] && y[..k] == b[..k + 1][1..];
    }
  }

  lemma SameHead(c: char, x: string, y: string)
    ensures Differs([c] + x, [c] + y) <==> Differs(x, y)
    ensures [c] + x <= [c] + y <==> x <= y
  {
    var a, b := [c] + x, [c] + y;
    forall k: nat | DiffersAt(a, b, k) ensures k > 0 && DiffersAt(x, y, k - 1) {
      DifferInTail(c, x, y, k - 1);
    }
    forall k: nat | DiffersAt(x, y, k) ensures DiffersAt(a, b, k + 1) {
      DifferInTail(c, x, y, k);
    }
    if x <= y {
      assert a == b[..|a|];
    }
    if a <= b {
      assert x == b[..|a|][1..];
    }
  }

  lemma OtherHead(a: string, b: string)
    requires a != "" && b != "" && a[0] != b[0]
    ensures Differs(a, b) <==> a[0] < b[0]
    ensures !(a <= b)
  {
    assert a[..0] == b[..0];
    if a[0] < b[0] {
      assert DiffersAt(a, b, 0);
    }
    forall k: nat | 0 < k < |a| && k < |b| ensures a[..k] != b[..k] {
      assert a[..k][0] == a[0] && b[..k][0] == b[0];
    }
  }

  /** One string is less than another if it is a proper beginning of it, or has the lesser character where
    * they first differ. */
  lemma {:induction false} LessExactly(a: string, b: string)
    ensures Less(a, b) <==> (a != b && a <= b) || Differs(a, b)
  {
    if a != "" && b != "" {
      if a[0] == b[0] {
        LessExactly(a[1..], b[1..]);
        assert a == [a[0]] + a[1..] && b == [b[0]] + b[1..];
        SameHead(a[0], a[1..], b[1..]);
      } else {
        OtherHead(a, b);
      }
    }
  }
}
