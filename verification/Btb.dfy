/** The branch target buffer: each set lists branches, most recently taken first, with the
    target each was last seen to take.  An entry with address 0 has never been used. */
module Btb {
  import opened LruStack
  import opened MoveToFront

  datatype Item = Item(addr: nat, target: nat)

  type Row = seq<Item>

  /** Position of the first item for a branch, or -1. */
  function Find(row: Row, baddr: nat): (i: int)
    ensures -1 <= i < |row|
    ensures i >= 0 ==> row[i].addr == baddr && forall j :: 0 <= j < i ==> row[j].addr != baddr
    ensures i == -1 ==> forall j :: 0 <= j < |row| ==> row[j].addr != baddr
  {
    if row == [] then -1
    else if row[0].addr == baddr then 0
    else var i := Find(row[1..], baddr); if i < 0 then -1 else i + 1
  }

  /** A taken branch: its item, or the least recent one if it has none, moves to the front.  A
      target that was predicted correctly is not written. */
  function Taken(row: Row, baddr: nat, target: nat, correct: bool): (r: Row)
    requires |row| > 0
    ensures |r| == |row|
  {
    var i := Find(row, baddr);
    if i >= 0 then ToFront(row, i, Item(baddr, if correct then row[i].target else target))
    else ToFront(row, |row| - 1, Item(baddr, target))
  }

  function EmptyRow(assoc: nat): Row {
    seq(assoc, _ => Item(0, 0))
  }

  // ----- runs

  datatype Use = Use(baddr: nat, target: nat, correct: bool)

  function TakenAll(us: seq<Use>, assoc: nat): (r: Row)
    requires assoc > 0
    ensures |r| == assoc
  {
    if us == [] then EmptyRow(assoc)
    else
      var u := us[|us| - 1];
      Taken(TakenAll(us[..|us| - 1], assoc), u.baddr, u.target, u.correct)
  }

  /** A use reported as correctly predicted has the stored target. */
  ghost predicate HonestUse(row: Row, u: Use) {
    u.baddr != 0 && (u.correct && Find(row, u.baddr) >= 0 ==> row[Find(row, u.baddr)].target == u.target)
  }

  ghost predicate Honest(us: seq<Use>, assoc: nat)
    requires assoc > 0
  {
    us == [] || var rest := us[..|us| - 1];
      Honest(rest, assoc) && HonestUse(TakenAll(rest, assoc), us[|us| - 1])
  }

  function Branches(us: seq<Use>): (bs: seq<Key>)
    ensures |bs| == |us|
    ensures forall k :: 0 <= k < |us| ==> bs[k] == us[k].baddr
  {
    seq(|us|, k requires 0 <= k < |us| => us[k].baddr)
  }

  /** The target a branch took last. */
  function LastTarget(us: seq<Use>, baddr: nat): nat {
    if us == [] then 0
    else if us[|us| - 1].baddr == baddr then us[|us| - 1].target
    else LastTarget(us[..|us| - 1], baddr)
  }

  /** The row lists the branches of bs in order, each with its last target, then unused items. */
  ghost predicate Lists(row: Row, bs: seq<Key>, us: seq<Use>) {
    && |bs| <= |row|
    && (forall k :: 0 <= k < |bs| ==> bs[k] != 0 && row[k] == Item(bs[k], LastTarget(us, bs[k])))
    && (forall k :: |bs| <= k < |row| ==> row[k] == Item(0, 0))
  }

  lemma TouchPresent(s: seq<Key>, i: nat, cap: nat)
    requires Distinct(s) && i < |s| <= cap
    ensures Touch(s, s[i], cap) == [s[i]] + s[..i] + s[i + 1..]
  {
    WithoutAt(s, i);
    ConsConcat(s[i], s[..i], s[i + 1..]);
  }

  lemma ConsConcat(x: Key, y: seq<Key>, z: seq<Key>)
    ensures [x] + (y + z) == [x] + y + z
  {
  }

  lemma TouchAbsent(s: seq<Key>, t: Key, cap: nat)
    requires t !in s && |s| <= cap && cap > 0
    ensures Touch(s, t, cap) == [t] + (if |s| < cap then s else s[..cap - 1])
  {
    WithoutAbsent(s, t);
    assert |s| == cap ==> ([t] + s)[..cap] == [t] + s[..cap - 1];
  }

  lemma FindListed(row: Row, bs: seq<Key>, us: seq<Use>, b: nat)
    requires Lists(row, bs, us) && b != 0 && Distinct(bs)
    ensures var i := Find(row, b); if i >= 0 then i < |bs| && bs[i] == b else b !in bs
  {
    if b in bs {
      var k :| 0 <= k < |bs| && bs[k] == b;
      assert row[k].addr == b;
    }
  }

  lemma TakenLists(row: Row, bs: seq<Key>, us: seq<Use>, u: Use)
    requires Lists(row, bs, us) && Distinct(bs) && |row| > 0 && HonestUse(row, u)
    ensures Lists(Taken(row, u.baddr, u.target, u.correct), Touch(bs, u.baddr, |row|), us + [u])
  {
    FindListed(row, bs, us, u.baddr);
    if Find(row, u.baddr) >= 0 {
      TakenHit(row, bs, us, u);
    } else {
      TakenMiss(row, bs, us, u);
    }
  }

  lemma TakenHit(row: Row, bs: seq<Key>, us: seq<Use>, u: Use)
    requires Lists(row, bs, us) && Distinct(bs) && HonestUse(row, u)
    requires 0 <= Find(row, u.baddr) < |bs| && bs[Find(row, u.baddr)] == u.baddr
    ensures Lists(Taken(row, u.baddr, u.target, u.correct), Touch(bs, u.baddr, |row|), us + [u])
  {
    NewTargets(us, u);
    HitLists(row, bs, us, u, Find(row, u.baddr));
    TouchPresent(bs, Find(row, u.baddr), |row|);
  }

  lemma TakenMiss(row: Row, bs: seq<Key>, us: seq<Use>, u: Use)
    requires Lists(row, bs, us) && |row| > 0 && u.baddr != 0
    requires Find(row, u.baddr) < 0 && u.baddr !in bs
    ensures Lists(Taken(row, u.baddr, u.target, u.correct), Touch(bs, u.baddr, |row|), us + [u])
  {
    NewTargets(us, u);
    MissLists(row, bs, us, u);
    TouchAbsent(bs, u.baddr, |row|);
  }

  lemma NewTargets(us: seq<Use>, u: Use)
    ensures LastTarget(us + [u], u.baddr) == u.target
    ensures forall b :: b != u.baddr ==> LastTarget(us + [u], b) == LastTarget(us, b)
  {
    assert (us + [u])[..|us|] == us;
  }

  lemma MissLists(row: Row, bs: seq<Key>, us: seq<Use>, u: Use)
    requires Lists(row, bs, us) && u.baddr !in bs && |row| > 0 && u.baddr != 0
    requires LastTarget(us + [u], u.baddr) == u.target
    requires forall b :: b != u.baddr ==> LastTarget(us + [u], b) == LastTarget(us, b)
    ensures Lists(ToFront(row, |row| - 1, Item(u.baddr, u.target)),
                  [u.baddr] + (if |bs| < |row| then bs else bs[..|row| - 1]), us + [u])
  {
    var keep := if |bs| < |row| then bs else bs[..|row| - 1];
    assert forall k :: 0 <= k < |keep| ==> keep[k] == bs[k] && keep[k] != u.baddr;
  }

  lemma HitLists(row: Row, bs: seq<Key>, us: seq<Use>, u: Use, i: nat)
    requires Lists(row, bs, us) && Distinct(bs) && i < |bs| && bs[i] == u.baddr
    requires LastTarget(us + [u], u.baddr) == u.target
    requires forall b :: b != u.baddr ==> LastTarget(us + [u], b) == LastTarget(us, b)
    ensures Lists(ToFront(row, i, Item(u.baddr, u.target)), [bs[i]] + bs[..i] + bs[i + 1..], us + [u])
  {
  }

  lemma TakenStep(row: Row, bs: seq<Key>, us: seq<Use>, u: Use)
    requires Lists(row, bs, us) && Distinct(bs) && |row| > 0 && HonestUse(row, u)
    ensures Lists(Taken(row, u.baddr, u.target, u.correct), Touch(bs, u.baddr, |row|), us + [u])
    ensures Distinct(Touch(bs, u.baddr, |row|))
  {
    TakenLists(row, bs, us, u);
    TouchDistinct(bs, u.baddr, |row|);
  }

  lemma UsesMore(us: seq<Use>, assoc: nat)
    requires us != [] && assoc > 0
    ensures var rest, u := us[..|us| - 1], us[|us| - 1];
      && rest + [u] == us
      && AfterUses(Branches(us), assoc) == Touch(AfterUses(Branches(rest), assoc), u.baddr, assoc)
  {
    assert Branches(us)[..|us| - 1] == Branches(us[..|us| - 1]);
  }

  lemma {:induction false} RowListsUses(us: seq<Use>, assoc: nat)
    requires assoc > 0 && Honest(us, assoc)
    ensures Lists(TakenAll(us, assoc), AfterUses(Branches(us), assoc), us)
    ensures Distinct(AfterUses(Branches(us), assoc))
  {
    if us != [] {
      var rest, u := us[..|us| - 1], us[|us| - 1];
      RowListsUses(rest, assoc);
      UsesMore(us, assoc);
      TakenStep(TakenAll(rest, assoc), AfterUses(Branches(rest), assoc), rest, u);
    }
  }

  /** Main result: a set holds exactly the most recently taken distinct branches that fit, in
      order of their last taken use, each with the target it last took. */
  lemma SetHoldsMostRecent(us: seq<Use>, assoc: nat)
    requires assoc > 0 && Honest(us, assoc)
    ensures Lists(TakenAll(us, assoc), Take(Recent(Branches(us)), assoc), us)
    ensures ByLastUse(Branches(us), Take(Recent(Branches(us)), assoc))
  {
    RowListsUses(us, assoc);
    HoldsMostRecent(Branches(us), assoc);
    RecentOrder(Branches(us));
  }

  /** The same uses, none reported as correctly predicted. */
  function Uncorrected(us: seq<Use>): (vs: seq<Use>)
    ensures |vs| == |us| && forall k :: 0 <= k < |us| ==> vs[k] == us[k].(correct := false)
  {
    seq(|us|, k requires 0 <= k < |us| => us[k].(correct := false))
  }

  ghost predicate SameBranches(row: Row, other: Row) {
    |row| == |other| && forall k :: 0 <= k < |row| ==> row[k].addr == other[k].addr
  }

  lemma TakenBranches(row: Row, other: Row, baddr: nat, target: nat, correct: bool)
    requires |row| > 0 && SameBranches(row, other)
    ensures SameBranches(Taken(row, baddr, target, correct), Taken(other, baddr, target, false))
  {
    var i, j := Find(row, baddr), Find(other, baddr);
    assert i >= 0 ==> other[i].addr == baddr;
    assert j >= 0 ==> row[j].addr == baddr;
  }

  /** Which branches a set holds, and where, does not depend on the predictions. */
  lemma {:induction false} BranchesOnly(us: seq<Use>, assoc: nat)
    requires assoc > 0 && forall k :: 0 <= k < |us| ==> us[k].baddr != 0
    ensures SameBranches(TakenAll(us, assoc), TakenAll(Uncorrected(us), assoc)) && Honest(Uncorrected(us), assoc)
  {
    if us != [] {
      var rest, u := us[..|us| - 1], us[|us| - 1];
      BranchesOnly(rest, assoc);
      assert Uncorrected(us)[..|us| - 1] == Uncorrected(rest);
      TakenBranches(TakenAll(rest, assoc), TakenAll(Uncorrected(rest), assoc), u.baddr, u.target, u.correct);
    }
  }

  /** The update loop asserts that no two entries match.  That holds of every run of branches
      whose addresses are not zero, for every nonzero address, and fails for address 0 exactly
      when two entries are unused. */
  lemma MatchesAreUnique(us: seq<Use>, assoc: nat, b: nat)
    requires assoc > 0 && forall k :: 0 <= k < |us| ==> us[k].baddr != 0
    ensures var row := TakenAll(us, assoc);
      (exists i, j :: 0 <= i < j < |row| && row[i].addr == row[j].addr == b)
      <==> b == 0 && |AfterUses(Branches(us), assoc)| + 2 <= assoc
  {
    var vs := Uncorrected(us);
    BranchesOnly(us, assoc);
    assert Branches(vs) == Branches(us);
    RowListsUses(vs, assoc);
    var row, other := TakenAll(us, assoc), TakenAll(vs, assoc);
    ListedDuplicates(other, AfterUses(Branches(us), assoc), vs, b);
    SameDuplicates(row, other, b);
  }

  lemma SameDuplicates(row: Row, other: Row, b: nat)
    requires SameBranches(row, other)
    ensures (exists i, j :: 0 <= i < j < |row| && row[i].addr == row[j].addr == b)
      <==> (exists i, j :: 0 <= i < j < |other| && other[i].addr == other[j].addr == b)
  {
    if i, j :| 0 <= i < j < |row| && row[i].addr == row[j].addr == b {
      assert other[i].addr == other[j].addr == b;
    }
    if i, j :| 0 <= i < j < |other| && other[i].addr == other[j].addr == b {
      assert row[i].addr == row[j].addr == b;
    }
  }

  lemma ListedDuplicates(row: Row, bs: seq<Key>, us: seq<Use>, b: nat)
    requires Lists(row, bs, us) && Distinct(bs)
    ensures (exists i, j :: 0 <= i < j < |row| && row[i].addr == row[j].addr == b)
            <==> b == 0 && |bs| + 2 <= |row|
  {
    if |bs| + 2 <= |row| {
      assert row[|bs|].addr == row[|bs| + 1].addr == 0;
    }
    forall i, j | 0 <= i < j < |row| && row[i].addr == row[j].addr
      ensures |bs| <= i && row[i].addr == 0
    {
    }
  }
}
