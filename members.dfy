/** Room membership as server.ts keeps it: a JavaScript `Set` of player IDs.
    A `Set` iterates in insertion order, so the model is a duplicate-free
    sequence in the order the members were added. */
module Members {

  /** No player appears twice. */
  ghost predicate Distinct<T>(s: seq<T>) {
    forall i, j :: 0 <= i < j < |s| ==> s[i] != s[j]
  }

  /** `h` is the earliest-added member of `s` other than `p`: everything added
      before `h` is `p` itself. */
  ghost predicate EarliestOtherThan<T>(s: seq<T>, p: T, h: T) {
    h != p && exists k :: 0 <= k < |s| && s[k] == h && forall j :: 0 <= j < k ==> s[j] == p
  }

  /** `Set.prototype.add`: a member already present stays where it is,
      a new one goes last. */
  function Added<T(==,!new)>(s: seq<T>, p: T): (r: seq<T>)
    ensures forall q :: q in r <==> q in s || q == p
    ensures |s| <= |r| && r[..|s|] == s
    ensures Distinct(s) ==> Distinct(r)
  {
    if p in s then s else s + [p]
  }

  /** `Set.prototype.delete`: drops `p` and keeps the others in their order. */
  function Removed<T(==,!new)>(s: seq<T>, p: T): (r: seq<T>)
    ensures forall q :: q in r <==> q in s && q != p
    ensures |r| <= |s|
    ensures Distinct(s) ==> Distinct(r)
    ensures |r| > 0 ==> EarliestOtherThan(s, p, r[0])
    ensures Distinct(s) ==> && (p !in s ==> r == s)
                            && (p in s ==> exists k :: 0 <= k < |s| && s[k] == p && r == s[..k] + s[k + 1..])
  {
    if s == [] then []
    else if s[0] == p then
      var r := Removed(s[1..], p);
      assert Distinct(s) ==> r == s[..0] + s[1..] by {
        if Distinct(s) {
          assert p !in s[1..];
          assert Distinct(s[1..]);
        }
      }
      assert |r| > 0 ==> EarliestOtherThan(s, p, r[0]) by {
        if |r| > 0 {
          var k :| 0 <= k < |s[1..]| && s[1..][k] == r[0] && forall j :: 0 <= j < k ==> s[1..][j] == p;
          assert s[k + 1] == r[0];
          assert forall j :: 0 <= j < k + 1 ==> s[j] == p by {
            forall j | 0 <= j < k + 1 ensures s[j] == p {
              if j > 0 { assert s[j] == s[1..][j - 1]; }
            }
          }
        }
      }
      r
    else
      var r := Removed(s[1..], p);
      assert Distinct(s) ==> Distinct([s[0]] + r) by {
        if Distinct(s) {
          assert s[0] !in s[1..];
          assert Distinct(s[1..]);
        }
      }
      assert Distinct(s) ==> && (p !in s ==> [s[0]] + r == s)
                             && (p in s ==> exists k :: 0 <= k < |s| && s[k] == p && [s[0]] + r == s[..k] + s[k + 1..]) by {
        if Distinct(s) {
          assert Distinct(s[1..]);
          ConsKeepsDrop(s, p, r);
        }
      }
      [s[0]] + r
  }

  /** Putting back a first element other than `p` in front of the tail with
      `p` dropped gives `s` with `p` dropped. */
  lemma {:induction false} ConsKeepsDrop<T>(s: seq<T>, p: T, r: seq<T>)
    requires s != [] && s[0] != p
    requires p !in s[1..] ==> r == s[1..]
    requires p in s[1..] ==> exists k :: 0 <= k < |s[1..]| && s[1..][k] == p && r == s[1..][..k] + s[1..][k + 1..]
    ensures p !in s ==> [s[0]] + r == s
    ensures p in s ==> exists k :: 0 <= k < |s| && s[k] == p && [s[0]] + r == s[..k] + s[k + 1..]
  {
    if p in s {
      assert p in s[1..];
      var k :| 0 <= k < |s[1..]| && s[1..][k] == p && r == s[1..][..k] + s[1..][k + 1..];
      DropShifts(s, k, r);
      assert s[k + 1] == p;
    } else {
      assert [s[0]] + s[1..] == s;
    }
  }

  /** Dropping position `k` of the tail of `s` and putting `s[0]` back in
      front drops position `k + 1` of `s`. */
  lemma {:induction false} DropShifts<T>(s: seq<T>, k: nat, r: seq<T>)
    requires k + 1 < |s| && r == s[1..][..k] + s[1..][k + 1..]
    ensures [s[0]] + r == s[..k + 1] + s[k + 2..]
  {
    calc {
      s[..k + 1] + s[k + 2..];
      { assert s[..k + 1] == [s[0]] + s[1..][..k];
        assert s[k + 2..] == s[1..][k + 1..]; }
      ([s[0]] + s[1..][..k]) + s[1..][k + 1..];
      [s[0]] + (s[1..][..k] + s[1..][k + 1..]);
    }
  }

  /** In a duplicate-free membership, the earliest member other than `p` is
      the first member, or the second when `p` is first. */
  lemma {:induction false} EarliestOtherThanIsFirstOrSecond<T>(s: seq<T>, p: T, h: T)
    requires Distinct(s) && EarliestOtherThan(s, p, h)
    ensures h == (if s[0] == p then s[1] else s[0])
  {
    var k :| 0 <= k < |s| && s[k] == h && forall j :: 0 <= j < k ==> s[j] == p;
    assert k == 0 || s[0] == p;
    if s[0] == p {
      assert k != 0 && 1 < |s|;
      assert s[1] == p || k == 1;
      assert s[0] != s[1];
    }
  }
}
