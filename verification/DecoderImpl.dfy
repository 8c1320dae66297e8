/** The decoder as arrays that initialisation fills and decoding walks, and three descriptions
    that show what the conditions on a description are for. */
module DecoderImpl {
  import opened Bits
  import opened Options
  import opened Decoder

  class InstDecoder {
    const ops: nat
    const mask2op: array<nat>
    const opmask: array<nat>
    const opshift: array<nat>
    const opoffset: array<nat>

    ghost predicate Shape() {
      && mask2op.Length == MAX_MASK + 1 && opmask.Length == opshift.Length == opoffset.Length == ops
      && mask2op != opmask && mask2op != opshift && mask2op != opoffset
      && opmask != opshift && opmask != opoffset && opshift != opoffset
    }

    ghost function View(): Tables
      reads mask2op, opmask, opshift, opoffset
    {
      Tables(mask2op[..], opmask[..], opshift[..], opoffset[..])
    }

    /** The field tables hold the masks and shifts of the links of ds. */
    ghost predicate FieldsOf(ds: Description)
      requires Shape()
      reads opmask, opshift
    {
      forall op :: 0 <= op < ops ==> opmask[op] == OpMask(ds, op) && opshift[op] == OpShift(ds, op)
    }

    /** Static initialisation: zeroed tables, and the field tables filled from the links. */
    constructor (ds: Description, n: nat)
      requires OpsBelow(ds, n)
      ensures Shape() && ops == n && fresh(mask2op) && fresh(opmask) && fresh(opshift) && fresh(opoffset)
      ensures mask2op[..] == Start(n).table && opoffset[..] == Start(n).offsets && FieldsOf(ds)
    {
      ops := n;
      mask2op := new nat[MAX_MASK + 1](_ => 0);
      opmask := new nat[n](_ => 0);
      opshift := new nat[n](_ => 0);
      opoffset := new nat[n](_ => 0);
      new;
      FillFields(ds);
    }

    /** The field tables, as the static initialisers give them. */
    method FillFields(ds: Description)
      requires Shape() && OpsBelow(ds, ops) && FieldsOf([])
      modifies opmask, opshift
      ensures FieldsOf(ds)
    {
      for k := 0 to |ds|
        invariant FieldsOf(ds[..k])
      {
        match ds[k] {
          case DefInst(op, _) => opmask[op], opshift[op] := 0, 0;
          case DefLink(op, _, shift, mask, _) => opmask[op], opshift[op] := mask, shift;
          case Connect(_) =>
        }
        assert ds[..k + 1][..k] == ds[..k];
      }
      assert ds[..|ds|] == ds;
    }

    /** One directive of the table construction. */
    method Enter(d: Directive, offset: nat, maxOffset: nat) returns (s: bool, offset': nat, max': nat)
      requires Shape() && d.op < ops
      modifies mask2op, opoffset
      ensures var r := Apply(State(old(mask2op[..]), old(opoffset[..]), offset, maxOffset), d);
        if s then r == State(mask2op[..], opoffset[..], offset', max') else r.Fatal?
    {
      s, offset', max' := true, offset, maxOffset;
      match d {
        case DefInst(op, msk) =>
          if msk + offset >= MAX_MASK || mask2op[msk + offset] != 0 { return false, offset, maxOffset; }
          mask2op[msk + offset] := op;
          max' := Max(maxOffset, msk + offset);
        case DefLink(op, msk, _, _, second) =>
          if msk + offset + second > MAX_MASK || mask2op[msk + offset + second] != 0 {
            return false, offset, maxOffset;
          }
          mask2op[msk + offset] := op;
          max' := Max(maxOffset, msk + offset);
        case Connect(op) =>
          offset' := maxOffset + 1;
          opoffset[op] := offset';
      }
    }

    /** Builds the decode table, starting from zeroed tables; fails exactly when the
        description does not build. */
    method Init(ds: Description) returns (ok: bool)
      requires Shape() && OpsBelow(ds, ops)
      requires mask2op[..] == Start(ops).table && opoffset[..] == Start(ops).offsets
      modifies mask2op, opoffset
      ensures ok <==> Builds(ds, ops)
      ensures ok && FieldsOf(ds) ==> View() == TablesOf(ds, ops)
    {
      var maxOffset: nat, offset: nat := 0, 0;
      var k := 0;
      while k < |ds|
        invariant k <= |ds| && After(ds, ops, k) == State(mask2op[..], opoffset[..], offset, maxOffset)
      {
        ok, offset, maxOffset := Enter(ds[k], offset, maxOffset);
        if !ok {
          FailsForGood(ds, ops, k + 1, |ds|);
          return;
        }
        k := k + 1;
      }
      ok := maxOffset < MAX_MASK;
      if ok { FieldsAgree(ds, opmask[..], opshift[..]); }
    }

    lemma FieldsAgree(ds: Description, masks: seq<nat>, shifts: seq<nat>)
      requires OpsBelow(ds, ops) && Builds(ds, ops) && |masks| == |shifts| == ops
      ensures (forall op :: 0 <= op < ops ==> masks[op] == OpMask(ds, op) && shifts[op] == OpShift(ds, op)) ==>
        masks == TablesOf(ds, ops).opmask && shifts == TablesOf(ds, ops).opshift
    {
    }

    lemma {:induction false} FailsForGood(ds: Description, n: nat, k: nat, m: nat)
      requires OpsBelow(ds, n) && k <= m <= |ds| && After(ds, n, k).Fatal?
      ensures After(ds, n, m).Fatal?
    {
      if k < m { FailsForGood(ds, n, k, m - 1); }
    }

    /** Decodes one instruction word; None when an index is past the end of the table, where
        the original reads whatever lies there. */
    method SetOpcode(w: Word) returns (r: Option<nat>)
      requires Progress(View())
      ensures r == Decode(View(), w)
    {
      var i := TopIndex(w);
      var op := mask2op[i];
      ghost var t := View();
      while opmask[op] != 0
        invariant i < mask2op.Length && op == mask2op[i] && op < opmask.Length && opshift.Length == opmask.Length
        invariant opoffset.Length == opmask.Length && Walk(t, w, i) == Decode(t, w)
        decreases mask2op.Length - i
      {
        i := Field(w, opshift[op], opmask[op]) + opoffset[op];
        if i >= mask2op.Length { return None; }
        op := mask2op[i];
      }
      return Some(op);
    }
  }

  // ----- why links must be connected, and windows kept apart

  /** A link that is never connected selects from offset 0, where it can select itself: on a
      word whose field names the link's own slot the walk returns to it for ever. */
  lemma UnconnectedLinkLoops(k: nat)
    ensures var ds := [DefLink(1, 3, 0, 0x7f, 0)];
      && Enumerated(ds) && OpsBelow(ds, 2) && Builds(ds, 2) && DistinctSlots(ds, 2) && !LinksConnected(ds)
      && IndexAfter(TablesOf(ds, 2), 3, k) == Some(3)
  {
    var ds := [DefLink(1, 3, 0, 0x7f, 0)];
    assert ds[..0] == [];
    assert Defs([]) == 0;
    assert After(ds, 2, 0) == Start(2);
    assert After(ds, 2, 1) == Apply(Start(2), ds[0]);
    assert TopIndex(3) == 3 by { AndLow(3); }
    assert Field(3, 0, 0x7f) == 3 by { AndLow(3); }
    assert !LinksConnected(ds) by { assert ds[0].DefLink?; }
    UnconnectedLoops(ds, 2, 0, 3, k);
  }

  /** The links that lead to the environment calls: funct3 of opcode 0x73, then the top twelve
      bits, of which only two values are defined. */
  const ENVIRONMENT: Description :=
    [DefLink(1, 0x73, 12, 7, 0), Connect(1), DefLink(2, 0, 20, 0xfff, 0), Connect(2), DefInst(3, 0), DefInst(4, 1)]

  lemma EnvironmentPrefixes()
    ensures var ds := ENVIRONMENT;
      && OpsBelow(ds, 5)
      && After(ds, 5, 0) == Start(5)
      && After(ds, 5, 2) == State(Start(5).table[0x73 := 1], Start(5).offsets[1 := 0x74], 0x74, 0x73)
      && After(ds, 5, 4) ==
        State(Start(5).table[0x73 := 1][0x74 := 2], Start(5).offsets[1 := 0x74][2 := 0x75], 0x75, 0x74)
      && After(ds, 5, 5).State? && After(ds, 5, 5).offset == 0x75
      && After(ds, 5, 6).State? && After(ds, 5, 6).max == 0x76 && After(ds, 5, 6).offsets[2] == 0x75
  {
    var ds := ENVIRONMENT;
    assert After(ds, 5, 0) == Start(5);
    assert After(ds, 5, 1) == Apply(Start(5), ds[0]);
    assert After(ds, 5, 2) == Apply(After(ds, 5, 1), ds[1]);
    assert After(ds, 5, 3) == Apply(After(ds, 5, 2), ds[2]);
    assert After(ds, 5, 4) == Apply(After(ds, 5, 3), ds[3]);
    assert After(ds, 5, 5) == Apply(After(ds, 5, 4), ds[4]);
    assert After(ds, 5, 6) == Apply(After(ds, 5, 5), ds[5]);
  }

  lemma EnvironmentSane()
    ensures Sane(ENVIRONMENT, 5)
  {
    EnvironmentPrefixes();
    EnvironmentEnumerated();
    EnvironmentConnected();
    EnvironmentDistinct();
  }

  lemma EnvironmentDistinct()
    ensures OpsBelow(ENVIRONMENT, 5) && DistinctSlots(ENVIRONMENT, 5)
  {
    EnvironmentPrefixes();
    assert OffsetAt(ENVIRONMENT, 5, 0) == 0 && OffsetAt(ENVIRONMENT, 5, 2) == 0x74;
    assert OffsetAt(ENVIRONMENT, 5, 4) == 0x75 && OffsetAt(ENVIRONMENT, 5, 5) == 0x75;
  }

  lemma EnvironmentEnumerated()
    ensures Enumerated(ENVIRONMENT)
  {
    var ds := ENVIRONMENT;
    assert Defs(ds[..0]) == 0;
    assert ds[..1][..0] == ds[..0] && ds[..2][..1] == ds[..1] && ds[..3][..2] == ds[..2];
    assert ds[..4][..3] == ds[..3] && ds[..5][..4] == ds[..4] && ds[..6][..5] == ds[..5] && ds[..6] == ds;
    assert Defs(ds[..1]) == 1 && Defs(ds[..2]) == 1 && Defs(ds[..3]) == 2 && Defs(ds[..4]) == 2;
    assert Defs(ds[..5]) == 3 && Defs(ds) == 4;
  }

  lemma EnvironmentConnected()
    ensures WellConnected(ENVIRONMENT)
  {
    assert ENVIRONMENT[1] == Connect(1) && ENVIRONMENT[3] == Connect(2);
  }

  /** On a word whose top bits name no environment call the walk runs past the end of the table:
      the field alone can be larger than the table. */
  lemma EnvironmentLeaves()
    ensures Sane(ENVIRONMENT, 5) && Progress(TablesOf(ENVIRONMENT, 5))
    ensures Decode(TablesOf(ENVIRONMENT, 5), 0xfff0_0073).None?
  {
    var ds, w := ENVIRONMENT, 0xfff0_0073;
    EnvironmentSane();
    WalkTerminates(ds, 5);
    EnvironmentMatched();
    WalkReaches(ds, 5, 2, w);
    EnvironmentPrefixes();
    EnvironmentFields();
    LeavesThere(ds, 5, w, 2);
  }

  lemma EnvironmentMatched()
    ensures Matches(ENVIRONMENT, 2, 0xfff0_0073)
  {
    var ds, w := ENVIRONMENT, 0xfff0_0073;
    EnvironmentSane();
    UniqueDef(ds, 0);
    EnvironmentTop();
    EnvironmentFields();
    assert GroupOf(ds, 0) == -1 && GroupOf(ds, 2) == 1;
    assert Matches(ds, 0, w);
  }

  lemma EnvironmentTop()
    ensures TopIndex(0xfff0_0073) == 0x73
  {
    assert 0xfff0_0073 % 4 == 3;
    assert 0xfff0_0073 % 128 == 0x73;
    TopOf(0xfff0_0073);
  }

  lemma EnvironmentFields()
    ensures Field(0xfff0_0073, 12, 7) == 0 && Field(0xfff0_0073, 20, 0xfff) == 0xfff
  {
    assert Pow2(12) == 0x1000 && Pow2(3) == 8;
    Pow2Add(12, 8);
    assert Pow2(20) == 0x10_0000;
    assert Sra32(0xfff0_0073, 12) == 0xffff_ff00;
    assert Sra32(0xfff0_0073, 20) == 0xffff_ffff;
    AndMask(0xffff_ff00, 3);
    AndMask(0xffff_ffff, 12);
  }

  /** Two links as in the machine description: the first can select four slots but defines
      only two, and the second is connected right after it. */
  const OVERLAPPING: Description :=
    [DefLink(1, 0x1b, 30, 3, 0), DefLink(2, 0x13, 12, 7, 0),
     Connect(1), DefInst(3, 0), DefInst(4, 1), Connect(2), DefInst(5, 0)]

  lemma OverlappingPrefixes()
    ensures var ds := OVERLAPPING;
      && OpsBelow(ds, 6)
      && After(ds, 6, 2) == State(Start(6).table[0x1b := 1][0x13 := 2], Start(6).offsets, 0, 0x1b)
      && After(ds, 6, 5) == State(Start(6).table[0x1b := 1][0x13 := 2][28 := 3][29 := 4],
                                  Start(6).offsets[1 := 28], 28, 29)
      && After(ds, 6, 7) == State(Start(6).table[0x1b := 1][0x13 := 2][28 := 3][29 := 4][30 := 5],
                                  Start(6).offsets[1 := 28][2 := 30], 30, 30)
  {
    var ds := OVERLAPPING;
    assert After(ds, 6, 1) == Apply(Start(6), ds[0]) by { assert After(ds, 6, 0) == Start(6); }
    assert After(ds, 6, 2) == Apply(After(ds, 6, 1), ds[1]);
    assert After(ds, 6, 3) == Apply(After(ds, 6, 2), ds[2]);
    assert After(ds, 6, 4) == Apply(After(ds, 6, 3), ds[3]);
    assert After(ds, 6, 5) == Apply(After(ds, 6, 4), ds[4]);
    assert After(ds, 6, 6) == Apply(After(ds, 6, 5), ds[5]);
    assert After(ds, 6, 7) == Apply(After(ds, 6, 6), ds[6]);
  }

  /** A word outside every path can decode to an opcode: key 2 of the first link falls on the
      second link's first child, which belongs to another top-level value. */
  lemma IllegalWordDecodes()
    ensures Sane(OVERLAPPING, 6) && Progress(TablesOf(OVERLAPPING, 6))
    ensures OVERLAPPING[6] == DefInst(5, 0) && !Matches(OVERLAPPING, 6, 0x8000_001b)
    ensures Decode(TablesOf(OVERLAPPING, 6), 0x8000_001b) == Some(5)
  {
    var ds, w := OVERLAPPING, 0x8000_001b;
    OverlappingSane();
    IllegalSelects();
    DefsOfOverlapping();
    assert GroupOf(ds, 6) == 5;
    ForeignSlotDecodes(ds, 6, w, 0, 6);
  }

  lemma IllegalSelects()
    ensures Sane(OVERLAPPING, 6) && Selects(OVERLAPPING, 6, 0, 6, 0x8000_001b)
  {
    OverlappingSane();
    OverlappingPrefixes();
    IllegalStart();
    FieldOfIllegal();
    assert GroupOf(OVERLAPPING, 0) == -1;
    OverlappingLast();
  }

  lemma OverlappingLast()
    ensures OpsBelow(OVERLAPPING, 6) && Slot(OVERLAPPING, 6, 6) == 30
  {
    OverlappingPrefixes();
    assert After(OVERLAPPING, 6, 6) == Apply(After(OVERLAPPING, 6, 5), OVERLAPPING[5]);
  }

  lemma OverlappingSane()
    ensures Sane(OVERLAPPING, 6)
  {
    OverlappingPrefixes();
    OverlappingEnumerated();
    OverlappingConnected();
    OverlappingDistinct();
  }

  lemma OverlappingEnumerated()
    ensures Enumerated(OVERLAPPING)
  {
    var ds := OVERLAPPING;
    assert Defs(ds[..0]) == 0;
    assert ds[..1][..0] == ds[..0] && ds[..2][..1] == ds[..1] && ds[..3][..2] == ds[..2] && ds[..7] == ds;
    assert ds[..4][..3] == ds[..3] && ds[..5][..4] == ds[..4] && ds[..6][..5] == ds[..5] && ds[..7][..6] == ds[..6];
    assert Defs(ds[..1]) == 1 && Defs(ds[..2]) == 2 && Defs(ds[..3]) == 2 && Defs(ds[..4]) == 3;
    assert Defs(ds[..5]) == 4 && Defs(ds[..6]) == 4 && Defs(ds) == 5;
  }

  lemma OverlappingConnected()
    ensures WellConnected(OVERLAPPING)
  {
    assert OVERLAPPING[2] == Connect(1) && OVERLAPPING[5] == Connect(2);
  }

  lemma OverlappingDistinct()
    ensures OpsBelow(OVERLAPPING, 6) && DistinctSlots(OVERLAPPING, 6)
  {
    var ds := OVERLAPPING;
    OverlappingPrefixes();
    OverlappingLast();
    assert OffsetAt(ds, 6, 0) == 0 && OffsetAt(ds, 6, 1) == 0 by {
      assert After(ds, 6, 0) == Start(6);
      assert After(ds, 6, 1) == Apply(Start(6), ds[0]);
    }
    assert OffsetAt(ds, 6, 3) == 28 && OffsetAt(ds, 6, 4) == 28 by {
      assert After(ds, 6, 3) == Apply(After(ds, 6, 2), ds[2]);
      assert After(ds, 6, 4) == Apply(After(ds, 6, 3), ds[3]);
    }
  }

  lemma IllegalStart()
    ensures TopIndex(0x8000_001b) == 0x1b
  {
    assert 0x8000_001b % 4 == 3;
    assert 0x8000_001b % 128 == 0x1b;
    TopOf(0x8000_001b);
  }

  lemma DefsOfOverlapping()
    ensures var ds := OVERLAPPING; DefOf(ds, 1) == 0 && DefOf(ds, 2) == 1 && DefOf(ds, 5) == 6
  {
    var ds := OVERLAPPING;
    assert ds[..6][..5] == ds[..5] && ds[..5][..4] == ds[..4] && ds[..4][..3] == ds[..3];
    assert ds[..3][..2] == ds[..2] && ds[..2][..1] == ds[..1];
    assert DefOf(ds[..1], 1) == 0;
    assert DefOf(ds[..2], 1) == 0 && DefOf(ds[..2], 2) == 1;
    assert DefOf(ds[..3], 1) == 0 && DefOf(ds[..3], 2) == 1;
    assert DefOf(ds[..4], 1) == 0 && DefOf(ds[..4], 2) == 1;
    assert DefOf(ds[..5], 1) == 0 && DefOf(ds[..5], 2) == 1;
    assert DefOf(ds[..6], 1) == 0 && DefOf(ds[..6], 2) == 1;
  }

  lemma FieldOfIllegal()
    ensures Field(0x8000_001b, 30, 3) == 2
  {
    assert Pow2(15) == 0x8000;
    Pow2Add(15, 15);
    assert Shr(0xffff_ffff - 0x8000_001b, 30) == 1;
    assert Sra32(0x8000_001b, 30) == 0xffff_fffe;
    AndLow(0xffff_fffe);
  }
}
