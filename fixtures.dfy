/** The one-step fixtures of tests/conway_test.rs on the generation of
    src/lib.rs. The tests build worlds from 0/1 grids and compare them only
    by which cells are alive; here a 1 is ALIVE and a 0 is DEAD. Each grid is
    checked one row at a time with the explicit neighbour sum, and
    `AgreeFromSound` carries the check over to `Step`. */
module ConwayFixtures {
  import opened Rules

  /** Whether cell i of `input` comes out alive after one update exactly
      when it is alive in `expected`, with the reference neighbour count. */
  predicate CellAgrees(input: seq<Byte>, expected: seq<Byte>, w: nat, h: nat, i: nat)
    requires |input| == |expected| == w * h && i < |input|
  {
    CoordsOf(w, h, i);
    var n := Surrounding(input, w, h, i % w, i / w);
    (n == 3 || (input[i] == ALIVE && n == 2)) == (expected[i] == ALIVE)
  }

  /** `CellAgrees` for every cell from i on. */
  predicate AgreeFrom(input: seq<Byte>, expected: seq<Byte>, w: nat, h: nat, i: nat)
    requires |input| == |expected| == w * h && i <= |input|
    decreases |input| - i
  {
    i == |input| || (CellAgrees(input, expected, w, h, i) && AgreeFrom(input, expected, w, h, i + 1))
  }

  /** One update of `input` leaves alive exactly the cells alive in `expected`. */
  predicate StepGives(input: seq<Byte>, expected: seq<Byte>, w: nat, h: nat)
    requires |input| == |expected| == w * h
  {
    forall i :: 0 <= i < |input| ==> (Step(input, w, h)[i] == ALIVE <==> expected[i] == ALIVE)
  }

  /** The direction-by-direction check is sound for the generation. */
  lemma {:induction false} AgreeFromSound(input: seq<Byte>, expected: seq<Byte>, w: nat, h: nat, i: nat)
    requires |input| == |expected| == w * h && i <= |input|
    requires AgreeFrom(input, expected, w, h, i)
    ensures forall j :: i <= j < |input| ==> (Step(input, w, h)[j] == ALIVE <==> expected[j] == ALIVE)
    decreases |input| - i
  {
    if i < |input| {
      CoordsOf(w, h, i);
      SurroundingIsNeighbourCount(input, w, h, i % w, i / w);
      AgreeFromSound(input, expected, w, h, i + 1);
    }
  }

  // `empty_world` on a 3 x 1 torus; live cells given: none; expected: none.
  const EmptyWorldGiven: seq<Byte> := seq(3, i => 0)
  const EmptyWorldExpected: seq<Byte> := seq(3, i => 0)

  lemma EmptyWorldRow0()
    requires AgreeFrom(EmptyWorldGiven, EmptyWorldExpected, 3, 1, 3)
    ensures AgreeFrom(EmptyWorldGiven, EmptyWorldExpected, 3, 1, 0)
  {
    assert AgreeFrom(EmptyWorldGiven, EmptyWorldExpected, 3, 1, 2);
    assert AgreeFrom(EmptyWorldGiven, EmptyWorldExpected, 3, 1, 1);
    assert AgreeFrom(EmptyWorldGiven, EmptyWorldExpected, 3, 1, 0);
  }

  /** `empty_world`: a lifeless world stays lifeless. */
  lemma EmptyWorld()
    ensures StepGives(EmptyWorldGiven, EmptyWorldExpected, 3, 1)
  {
    EmptyWorldRow0();
    AgreeFromSound(EmptyWorldGiven, EmptyWorldExpected, 3, 1, 0);
  }

  // `rule_1` on a 4 x 4 torus; live cells given: 6; expected: none.
  const Rule1Given: seq<Byte> := seq(16, i => if i == 6 then 255 else 0)
  const Rule1Expected: seq<Byte> := seq(16, i => 0)

  lemma Rule1Row0()
    requires AgreeFrom(Rule1Given, Rule1Expected, 4, 4, 4)
    ensures AgreeFrom(Rule1Given, Rule1Expected, 4, 4, 0)
  {
    assert AgreeFrom(Rule1Given, Rule1Expected, 4, 4, 3);
    assert AgreeFrom(Rule1Given, Rule1Expected, 4, 4, 2);
    assert AgreeFrom(Rule1Given, Rule1Expected, 4, 4, 1);
    assert AgreeFrom(Rule1Given, Rule1Expected, 4, 4, 0);
  }

  lemma Rule1Row1()
    requires AgreeFrom(Rule1Given, Rule1Expected, 4, 4, 8)
    ensures AgreeFrom(Rule1Given, Rule1Expected, 4, 4, 4)
  {
    assert AgreeFrom(Rule1Given, Rule1Expected, 4, 4, 7);
    assert AgreeFrom(Rule1Given, Rule1Expected, 4, 4, 6);
    assert AgreeFrom(Rule1Given, Rule1Expected, 4, 4, 5);
    assert AgreeFrom(Rule1Given, Rule1Expected, 4, 4, 4);
  }

  lemma Rule1Row2()
    requires AgreeFrom(Rule1Given, Rule1Expected, 4, 4, 12)
    ensures AgreeFrom(Rule1Given, Rule1Expected, 4, 4, 8)
  {
    assert AgreeFrom(Rule1Given, Rule1Expected, 4, 4, 11);
    assert AgreeFrom(Rule1Given, Rule1Expected, 4, 4, 10);
    assert AgreeFrom(Rule1Given, Rule1Expected, 4, 4, 9);
    assert AgreeFrom(Rule1Given, Rule1Expected, 4, 4, 8);
  }

  lemma Rule1Row3()
    requires AgreeFrom(Rule1Given, Rule1Expected, 4, 4, 16)
    ensures AgreeFrom(Rule1Given, Rule1Expected, 4, 4, 12)
  {
    assert AgreeFrom(Rule1Given, Rule1Expected, 4, 4, 15);
    assert AgreeFrom(Rule1Given, Rule1Expected, 4, 4, 14);
    assert AgreeFrom(Rule1Given, Rule1Expected, 4, 4, 13);
    assert AgreeFrom(Rule1Given, Rule1Expected, 4, 4, 12);
  }

  /** `rule_1`: a lone live cell dies of underpopulation. */
  lemma Rule1()
    ensures StepGives(Rule1Given, Rule1Expected, 4, 4)
  {
    Rule1Row3();
    Rule1Row2();
    Rule1Row1();
    Rule1Row0();
    AgreeFromSound(Rule1Given, Rule1Expected, 4, 4, 0);
  }

  // `rule_1_2_cells` on a 4 x 4 torus; live cells given: 6, 7; expected: none.
  const Rule1TwoCellsGiven: seq<Byte> := seq(16, i => if i == 6 || i == 7 then 255 else 0)
  const Rule1TwoCellsExpected: seq<Byte> := seq(16, i => 0)

  lemma Rule1TwoCellsRow0()
    requires AgreeFrom(Rule1TwoCellsGiven, Rule1TwoCellsExpected, 4, 4, 4)
    ensures AgreeFrom(Rule1TwoCellsGiven, Rule1TwoCellsExpected, 4, 4, 0)
  {
    assert AgreeFrom(Rule1TwoCellsGiven, Rule1TwoCellsExpected, 4, 4, 3);
    assert AgreeFrom(Rule1TwoCellsGiven, Rule1TwoCellsExpected, 4, 4, 2);
    assert AgreeFrom(Rule1TwoCellsGiven, Rule1TwoCellsExpected, 4, 4, 1);
    assert AgreeFrom(Rule1TwoCellsGiven, Rule1TwoCellsExpected, 4, 4, 0);
  }

  lemma Rule1TwoCellsRow1()
    requires AgreeFrom(Rule1TwoCellsGiven, Rule1TwoCellsExpected, 4, 4, 8)
    ensures AgreeFrom(Rule1TwoCellsGiven, Rule1TwoCellsExpected, 4, 4, 4)
  {
    assert AgreeFrom(Rule1TwoCellsGiven, Rule1TwoCellsExpected, 4, 4, 7);
    assert AgreeFrom(Rule1TwoCellsGiven, Rule1TwoCellsExpected, 4, 4, 6);
    assert AgreeFrom(Rule1TwoCellsGiven, Rule1TwoCellsExpected, 4, 4, 5);
    assert AgreeFrom(Rule1TwoCellsGiven, Rule1TwoCellsExpected, 4, 4, 4);
  }

  lemma Rule1TwoCellsRow2()
    requires AgreeFrom(Rule1TwoCellsGiven, Rule1TwoCellsExpected, 4, 4, 12)
    ensures AgreeFrom(Rule1TwoCellsGiven, Rule1TwoCellsExpected, 4, 4, 8)
  {
    assert AgreeFrom(Rule1TwoCellsGiven, Rule1TwoCellsExpected, 4, 4, 11);
    assert AgreeFrom(Rule1TwoCellsGiven, Rule1TwoCellsExpected, 4, 4, 10);
    assert AgreeFrom(Rule1TwoCellsGiven, Rule1TwoCellsExpected, 4, 4, 9);
    assert AgreeFrom(Rule1TwoCellsGiven, Rule1TwoCellsExpected, 4, 4, 8);
  }

  lemma Rule1TwoCellsRow3()
    requires AgreeFrom(Rule1TwoCellsGiven, Rule1TwoCellsExpected, 4, 4, 16)
    ensures AgreeFrom(Rule1TwoCellsGiven, Rule1TwoCellsExpected, 4, 4, 12)
  {
    assert AgreeFrom(Rule1TwoCellsGiven, Rule1TwoCellsExpected, 4, 4, 15);
    assert AgreeFrom(Rule1TwoCellsGiven, Rule1TwoCellsExpected, 4, 4, 14);
    assert AgreeFrom(Rule1TwoCellsGiven, Rule1TwoCellsExpected, 4, 4, 13);
    assert AgreeFrom(Rule1TwoCellsGiven, Rule1TwoCellsExpected, 4, 4, 12);
  }

  /** `rule_1_2_cells`: two neighbouring live cells both die. */
  lemma Rule1TwoCells()
    ensures StepGives(Rule1TwoCellsGiven, Rule1TwoCellsExpected, 4, 4)
  {
    Rule1TwoCellsRow3();
    Rule1TwoCellsRow2();
    Rule1TwoCellsRow1();
    Rule1TwoCellsRow0();
    AgreeFromSound(Rule1TwoCellsGiven, Rule1TwoCellsExpected, 4, 4, 0);
  }

  // `rule_2` on a 4 x 4 torus; live cells given: 3, 6, 9; expected: 6.
  const Rule2Given: seq<Byte> := seq(16, i => if i == 3 || i == 6 || i == 9 then 255 else 0)
  const Rule2Expected: seq<Byte> := seq(16, i => if i == 6 then 255 else 0)

  lemma Rule2Row0()
    requires AgreeFrom(Rule2Given, Rule2Expected, 4, 4, 4)
    ensures AgreeFrom(Rule2Given, Rule2Expected, 4, 4, 0)
  {
    assert AgreeFrom(Rule2Given, Rule2Expected, 4, 4, 3);
    assert AgreeFrom(Rule2Given, Rule2Expected, 4, 4, 2);
    assert AgreeFrom(Rule2Given, Rule2Expected, 4, 4, 1);
    assert AgreeFrom(Rule2Given, Rule2Expected, 4, 4, 0);
  }

  lemma Rule2Row1()
    requires AgreeFrom(Rule2Given, Rule2Expected, 4, 4, 8)
    ensures AgreeFrom(Rule2Given, Rule2Expected, 4, 4, 4)
  {
    assert AgreeFrom(Rule2Given, Rule2Expected, 4, 4, 7);
    assert AgreeFrom(Rule2Given, Rule2Expected, 4, 4, 6);
    assert AgreeFrom(Rule2Given, Rule2Expected, 4, 4, 5);
    assert AgreeFrom(Rule2Given, Rule2Expected, 4, 4, 4);
  }

  lemma Rule2Row2()
    requires AgreeFrom(Rule2Given, Rule2Expected, 4, 4, 12)
    ensures AgreeFrom(Rule2Given, Rule2Expected, 4, 4, 8)
  {
    assert AgreeFrom(Rule2Given, Rule2Expected, 4, 4, 11);
    assert AgreeFrom(Rule2Given, Rule2Expected, 4, 4, 10);
    assert AgreeFrom(Rule2Given, Rule2Expected, 4, 4, 9);
    assert AgreeFrom(Rule2Given, Rule2Expected, 4, 4, 8);
  }

  lemma Rule2Row3()
    requires AgreeFrom(Rule2Given, Rule2Expected, 4, 4, 16)
    ensures AgreeFrom(Rule2Given, Rule2Expected, 4, 4, 12)
  {
    assert AgreeFrom(Rule2Given, Rule2Expected, 4, 4, 15);
    assert AgreeFrom(Rule2Given, Rule2Expected, 4, 4, 14);
    assert AgreeFrom(Rule2Given, Rule2Expected, 4, 4, 13);
    assert AgreeFrom(Rule2Given, Rule2Expected, 4, 4, 12);
  }

  /** `rule_2`: of a diagonal of three only the middle cell, with two live neighbours, lives on. */
  lemma Rule2()
    ensures StepGives(Rule2Given, Rule2Expected, 4, 4)
  {
    Rule2Row3();
    Rule2Row2();
    Rule2Row1();
    Rule2Row0();
    AgreeFromSound(Rule2Given, Rule2Expected, 4, 4, 0);
  }

  // `rule_2_stable` on a 4 x 4 torus; live cells given: 5, 6, 9, 10; expected: 5, 6, 9, 10.
  const Rule2StableGiven: seq<Byte> := seq(16, i => if i == 5 || i == 6 || i == 9 || i == 10 then 255 else 0)
  const Rule2StableExpected: seq<Byte> := seq(16, i => if i == 5 || i == 6 || i == 9 || i == 10 then 255 else 0)

  lemma Rule2StableRow0()
    requires AgreeFrom(Rule2StableGiven, Rule2StableExpected, 4, 4, 4)
    ensures AgreeFrom(Rule2StableGiven, Rule2StableExpected, 4, 4, 0)
  {
    assert AgreeFrom(Rule2StableGiven, Rule2StableExpected, 4, 4, 3);
    assert AgreeFrom(Rule2StableGiven, Rule2StableExpected, 4, 4, 2);
    assert AgreeFrom(Rule2StableGiven, Rule2StableExpected, 4, 4, 1);
    assert AgreeFrom(Rule2StableGiven, Rule2StableExpected, 4, 4, 0);
  }

  lemma Rule2StableRow1()
    requires AgreeFrom(Rule2StableGiven, Rule2StableExpected, 4, 4, 8)
    ensures AgreeFrom(Rule2StableGiven, Rule2StableExpected, 4, 4, 4)
  {
    assert AgreeFrom(Rule2StableGiven, Rule2StableExpected, 4, 4, 7);
    assert AgreeFrom(Rule2StableGiven, Rule2StableExpected, 4, 4, 6);
    assert AgreeFrom(Rule2StableGiven, Rule2StableExpected, 4, 4, 5);
    assert AgreeFrom(Rule2StableGiven, Rule2StableExpected, 4, 4, 4);
  }

  lemma Rule2StableRow2()
    requires AgreeFrom(Rule2StableGiven, Rule2StableExpected, 4, 4, 12)
    ensures AgreeFrom(Rule2StableGiven, Rule2StableExpected, 4, 4, 8)
  {
    assert AgreeFrom(Rule2StableGiven, Rule2StableExpected, 4, 4, 11);
    assert AgreeFrom(Rule2StableGiven, Rule2StableExpected, 4, 4, 10);
    assert AgreeFrom(Rule2StableGiven, Rule2StableExpected, 4, 4, 9);
    assert AgreeFrom(Rule2StableGiven, Rule2StableExpected, 4, 4, 8);
  }

  lemma Rule2StableRow3()
    requires AgreeFrom(Rule2StableGiven, Rule2StableExpected, 4, 4, 16)
    ensures AgreeFrom(Rule2StableGiven, Rule2StableExpected, 4, 4, 12)
  {
    assert AgreeFrom(Rule2StableGiven, Rule2StableExpected, 4, 4, 15);
    assert AgreeFrom(Rule2StableGiven, Rule2StableExpected, 4, 4, 14);
    assert AgreeFrom(Rule2StableGiven, Rule2StableExpected, 4, 4, 13);
    assert AgreeFrom(Rule2StableGiven, Rule2StableExpected, 4, 4, 12);
  }

  /** `rule_2_stable`: the 2 x 2 block is a still life. */
  lemma Rule2Stable()
    ensures StepGives(Rule2StableGiven, Rule2StableExpected, 4, 4)
  {
    Rule2StableRow3();
    Rule2StableRow2();
    Rule2StableRow1();
    Rule2StableRow0();
    AgreeFromSound(Rule2StableGiven, Rule2StableExpected, 4, 4, 0);
  }

  // `rule_3` on a 4 x 4 torus; live cells given: 2, 5, 6, 7, 10; expected: 1, 2, 3, 5, 7, 9, 10, 11.
  const Rule3Given: seq<Byte> := seq(16, i => if i == 2 || i == 5 || i == 6 || i == 7 || i == 10 then 255 else 0)
  const Rule3Expected: seq<Byte> := seq(16, i => if i == 1 || i == 2 || i == 3 || i == 5 || i == 7 || i == 9 || i == 10 || i == 11 then 255 else 0)

  lemma Rule3Row0()
    requires AgreeFrom(Rule3Given, Rule3Expected, 4, 4, 4)
    ensures AgreeFrom(Rule3Given, Rule3Expected, 4, 4, 0)
  {
    assert AgreeFrom(Rule3Given, Rule3Expected, 4, 4, 3);
    assert AgreeFrom(Rule3Given, Rule3Expected, 4, 4, 2);
    assert AgreeFrom(Rule3Given, Rule3Expected, 4, 4, 1);
    assert AgreeFrom(Rule3Given, Rule3Expected, 4, 4, 0);
  }

  lemma Rule3Row1()
    requires AgreeFrom(Rule3Given, Rule3Expected, 4, 4, 8)
    ensures AgreeFrom(Rule3Given, Rule3Expected, 4, 4, 4)
  {
    assert AgreeFrom(Rule3Given, Rule3Expected, 4, 4, 7);
    assert AgreeFrom(Rule3Given, Rule3Expected, 4, 4, 6);
    assert AgreeFrom(Rule3Given, Rule3Expected, 4, 4, 5);
    assert AgreeFrom(Rule3Given, Rule3Expected, 4, 4, 4);
  }

  lemma Rule3Row2()
    requires AgreeFrom(Rule3Given, Rule3Expected, 4, 4, 12)
    ensures AgreeFrom(Rule3Given, Rule3Expected, 4, 4, 8)
  {
    assert AgreeFrom(Rule3Given, Rule3Expected, 4, 4, 11);
    assert AgreeFrom(Rule3Given, Rule3Expected, 4, 4, 10);
    assert AgreeFrom(Rule3Given, Rule3Expected, 4, 4, 9);
    assert AgreeFrom(Rule3Given, Rule3Expected, 4, 4, 8);
  }

  lemma Rule3Row3()
    requires AgreeFrom(Rule3Given, Rule3Expected, 4, 4, 16)
    ensures AgreeFrom(Rule3Given, Rule3Expected, 4, 4, 12)
  {
    assert AgreeFrom(Rule3Given, Rule3Expected, 4, 4, 15);
    assert AgreeFrom(Rule3Given, Rule3Expected, 4, 4, 14);
    assert AgreeFrom(Rule3Given, Rule3Expected, 4, 4, 13);
    assert AgreeFrom(Rule3Given, Rule3Expected, 4, 4, 12);
  }

  /** `rule_3`: the centre of a plus dies of overpopulation while the arms and corners light up into a ring. */
  lemma Rule3()
    ensures StepGives(Rule3Given, Rule3Expected, 4, 4)
  {
    Rule3Row3();
    Rule3Row2();
    Rule3Row1();
    Rule3Row0();
    AgreeFromSound(Rule3Given, Rule3Expected, 4, 4, 0);
  }

  // `rule_4` on a 4 x 4 torus; live cells given: 2, 5, 7; expected: 2, 6.
  const Rule4Given: seq<Byte> := seq(16, i => if i == 2 || i == 5 || i == 7 then 255 else 0)
  const Rule4Expected: seq<Byte> := seq(16, i => if i == 2 || i == 6 then 255 else 0)

  lemma Rule4Row0()
    requires AgreeFrom(Rule4Given, Rule4Expected, 4, 4, 4)
    ensures AgreeFrom(Rule4Given, Rule4Expected, 4, 4, 0)
  {
    assert AgreeFrom(Rule4Given, Rule4Expected, 4, 4, 3);
    assert AgreeFrom(Rule4Given, Rule4Expected, 4, 4, 2);
    assert AgreeFrom(Rule4Given, Rule4Expected, 4, 4, 1);
    assert AgreeFrom(Rule4Given, Rule4Expected, 4, 4, 0);
  }

  lemma Rule4Row1()
    requires AgreeFrom(Rule4Given, Rule4Expected, 4, 4, 8)
    ensures AgreeFrom(Rule4Given, Rule4Expected, 4, 4, 4)
  {
    assert AgreeFrom(Rule4Given, Rule4Expected, 4, 4, 7);
    assert AgreeFrom(Rule4Given, Rule4Expected, 4, 4, 6);
    assert AgreeFrom(Rule4Given, Rule4Expected, 4, 4, 5);
    assert AgreeFrom(Rule4Given, Rule4Expected, 4, 4, 4);
  }

  lemma Rule4Row2()
    requires AgreeFrom(Rule4Given, Rule4Expected, 4, 4, 12)
    ensures AgreeFrom(Rule4Given, Rule4Expected, 4, 4, 8)
  {
    assert AgreeFrom(Rule4Given, Rule4Expected, 4, 4, 11);
    assert AgreeFrom(Rule4Given, Rule4Expected, 4, 4, 10);
    assert AgreeFrom(Rule4Given, Rule4Expected, 4, 4, 9);
    assert AgreeFrom(Rule4Given, Rule4Expected, 4, 4, 8);
  }

  lemma Rule4Row3()
    requires AgreeFrom(Rule4Given, Rule4Expected, 4, 4, 16)
    ensures AgreeFrom(Rule4Given, Rule4Expected, 4, 4, 12)
  {
    assert AgreeFrom(Rule4Given, Rule4Expected, 4, 4, 15);
    assert AgreeFrom(Rule4Given, Rule4Expected, 4, 4, 14);
    assert AgreeFrom(Rule4Given, Rule4Expected, 4, 4, 13);
    assert AgreeFrom(Rule4Given, Rule4Expected, 4, 4, 12);
  }

  /** `rule_4`: the dead cell below the point of a vee, with exactly three live neighbours, is born. */
  lemma Rule4()
    ensures StepGives(Rule4Given, Rule4Expected, 4, 4)
  {
    Rule4Row3();
    Rule4Row2();
    Rule4Row1();
    Rule4Row0();
    AgreeFromSound(Rule4Given, Rule4Expected, 4, 4, 0);
  }

  // `shape` on a 5 x 5 torus; live cells given: 2, 6, 7, 12, 13; expected: 1, 2, 6, 11, 12, 13.
  const ShapeGiven: seq<Byte> := seq(25, i => if i == 2 || i == 6 || i == 7 || i == 12 || i == 13 then 255 else 0)
  const ShapeExpected: seq<Byte> := seq(25, i => if i == 1 || i == 2 || i == 6 || i == 11 || i == 12 || i == 13 then 255 else 0)

  lemma ShapeRow0()
    requires AgreeFrom(ShapeGiven, ShapeExpected, 5, 5, 5)
    ensures AgreeFrom(ShapeGiven, ShapeExpected, 5, 5, 0)
  {
    assert AgreeFrom(ShapeGiven, ShapeExpected, 5, 5, 4);
    assert AgreeFrom(ShapeGiven, ShapeExpected, 5, 5, 3);
    assert AgreeFrom(ShapeGiven, ShapeExpected, 5, 5, 2);
    assert AgreeFrom(ShapeGiven, ShapeExpected, 5, 5, 1);
    assert AgreeFrom(ShapeGiven, ShapeExpected, 5, 5, 0);
  }

  lemma ShapeRow1()
    requires AgreeFrom(ShapeGiven, ShapeExpected, 5, 5, 10)
    ensures AgreeFrom(ShapeGiven, ShapeExpected, 5, 5, 5)
  {
    assert AgreeFrom(ShapeGiven, ShapeExpected, 5, 5, 9);
    assert AgreeFrom(ShapeGiven, ShapeExpected, 5, 5, 8);
    assert AgreeFrom(ShapeGiven, ShapeExpected, 5, 5, 7);
    assert AgreeFrom(ShapeGiven, ShapeExpected, 5, 5, 6);
    assert AgreeFrom(ShapeGiven, ShapeExpected, 5, 5, 5);
  }

  lemma ShapeRow2()
    requires AgreeFrom(ShapeGiven, ShapeExpected, 5, 5, 15)
    ensures AgreeFrom(ShapeGiven, ShapeExpected, 5, 5, 10)
  {
    assert AgreeFrom(ShapeGiven, ShapeExpected, 5, 5, 14);
    assert AgreeFrom(ShapeGiven, ShapeExpected, 5, 5, 13);
    assert AgreeFrom(ShapeGiven, ShapeExpected, 5, 5, 12);
    assert AgreeFrom(ShapeGiven, ShapeExpected, 5, 5, 11);
    assert AgreeFrom(ShapeGiven, ShapeExpected, 5, 5, 10);
  }

  lemma ShapeRow3()
    requires AgreeFrom(ShapeGiven, ShapeExpected, 5, 5, 20)
    ensures AgreeFrom(ShapeGiven, ShapeExpected, 5, 5, 15)
  {
    assert AgreeFrom(ShapeGiven, ShapeExpected, 5, 5, 19);
    assert AgreeFrom(ShapeGiven, ShapeExpected, 5, 5, 18);
    assert AgreeFrom(ShapeGiven, ShapeExpected, 5, 5, 17);
    assert AgreeFrom(ShapeGiven, ShapeExpected, 5, 5, 16);
    assert AgreeFrom(ShapeGiven, ShapeExpected, 5, 5, 15);
  }

  lemma ShapeRow4()
    requires AgreeFrom(ShapeGiven, ShapeExpected, 5, 5, 25)
    ensures AgreeFrom(ShapeGiven, ShapeExpected, 5, 5, 20)
  {
    assert AgreeFrom(ShapeGiven, ShapeExpected, 5, 5, 24);
    assert AgreeFrom(ShapeGiven, ShapeExpected, 5, 5, 23);
    assert AgreeFrom(ShapeGiven, ShapeExpected, 5, 5, 22);
    assert AgreeFrom(ShapeGiven, ShapeExpected, 5, 5, 21);
    assert AgreeFrom(ShapeGiven, ShapeExpected, 5, 5, 20);
  }

  /** `shape`: a five-cell shape on a 5 x 5 torus. */
  lemma Shape()
    ensures StepGives(ShapeGiven, ShapeExpected, 5, 5)
  {
    ShapeRow4();
    ShapeRow3();
    ShapeRow2();
    ShapeRow1();
    ShapeRow0();
    AgreeFromSound(ShapeGiven, ShapeExpected, 5, 5, 0);
  }
}
