/** What a caller of a protein can conclude from the contracts alone. */
module Scenarios {
  import opened ResidueTable
  import opened Normalise
  import opened Weights
  import opened Proteins

  /** "AG" renders as itself, has two residues and weighs
      (89.09 + 75.07 - 18.0153) / 1000 kilodaltons. */
  method BuildAG() {
    WeightOfAG();
    UpperKeepsCodes("AG");
    var p := new Protein.FromText("AG");
    var s := p.Seq();
    assert s == "AG";
    var k := p.Size();
    assert k == 2;
    var w := p.ProtWeight();
    assert w == 0.1461447;
  }

  /** Appending A then G gives "AG"; inserting R at position 1 gives "ARG". */
  method InsertIntoAG() {
    var p := new Protein();
    p.Append('A');
    assert p.codes == ['A'];
    p.Append('G');
    assert p.codes == ['A', 'G'];
    p.Insert('R', 1);
    assert p.codes == ['A'] + ['R'] + ['G'];
    var s := p.Seq();
    assert s == ['A', 'R', 'G'];
    NamesOfARG(p);
  }

  /** The first residue of "ARG" is Alanine; position 3 is out of range. */
  method NamesOfARG(p: Protein)
    requires p.Valid() && p.codes == ['A', 'R', 'G']
  {
    var name := p.ResidueAt(0);
    assert Name('A') == "Alanine";
    assert name == Found("Alanine");
    var past := p.ResidueAt(3);
    assert past == OutOfRange(3);
  }

  /** Lower-case text is accepted after upper-casing. */
  method BuildFromLowerCase() {
    UpperAt("ag", 0);
    UpperAt("ag", 1);
    assert Upper("ag") == "AG";
    WeightOfAG();
    var p := new Protein.FromText("ag");
    var s := p.Seq();
    assert s == "AG";
  }

  /** Text with a digit in it gives the empty protein, not its valid part,
      and append does not upper-case. */
  method BuildFromBadText() {
    UpperAt("a1b", 1);
    assert !IsCode(Upper("a1b")[1]);
    var q := new Protein.FromText("a1b");
    var k := q.Size();
    assert k == 0;
    var w := q.ProtWeight();
    assert w == 0.0;
    q.Append('a');
    k := q.Size();
    assert k == 0;
  }

  /** On the one-residue chain "A", position 1 passes the walk's guard and
      reading its name dereferences a null node; the bounds-checked lookup
      reports it as out of range instead. A negative position reads A. */
  method ResidueAtPastTheEnd() {
    var p := new Protein();
    p.Append('A');
    var raw := p.ResidueAtAsWritten(1);
    assert raw == NullDereference;
    var negative := p.ResidueAtAsWritten(-5);
    assert negative == Named(Name('A'));
    var checked := p.ResidueAt(1);
    assert checked == OutOfRange(1);
  }
}
