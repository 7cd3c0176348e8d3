/** The tables of Rijndael as aes_gen_tables (aes.c) fills them. A
    32-bit word is its four bytes, the most significant first. */
module AesTables {
  import opened Bits
  import opened Field
  import opened Fips197

  type Table = t: seq<Col> | |t| == 256 witness seq(256, _ => Col(0, 0, 0, 0))

  datatype Tables = Tables(te0: Table, te1: Table, te2: Table, te3: Table, te4: Table,
                           td0: Table, td1: Table, td2: Table, td3: Table, td4: Table)

  // ----- the tables

  /** A column of multiples of y. */
  function Entry(p: Coef, y: Byte): Col {
    Col(Times(p.p0, y), Times(p.p1, y), Times(p.p2, y), Times(p.p3, y))
  }

  function Column(p: Coef, S: Box): Table {
    seq(256, x requires 0 <= x < 256 => Entry(p, S[x]))
  }

  /** What the tables are: multiples of S and of Si in the order of the two matrices. */
  function Standard(S: Box, Si: Box): Tables {
    Tables(Column(Coef(2, 1, 1, 3), S), Column(Coef(3, 2, 1, 1), S), Column(Coef(1, 3, 2, 1), S),
           Column(Coef(1, 1, 3, 2), S), Column(Coef(1, 1, 1, 1), S),
           Column(Coef(14, 9, 13, 11), Si), Column(Coef(11, 14, 9, 13), Si), Column(Coef(13, 11, 14, 9), Si),
           Column(Coef(9, 13, 11, 14), Si), Column(Coef(1, 1, 1, 1), Si))
  }

  /** ROTATE by 24 bits, one byte to the right. */
  function Rotate24(c: Col): Col {
    Col(c.b3, c.b0, c.b1, c.b2)
  }

  function Rotate16(c: Col): Col {
    Rotate24(Rotate24(c))
  }

  function Rotate8(c: Col): Col {
    Rotate24(Rotate16(c))
  }

  /** The entry of Te0 for a value of S. */
  method EncEntry(s: Byte) returns (e: Col)
    ensures e == Entry(Coef(2, 1, 1, 3), s)
  {
    var s2 := Xtime(s);
    var s3 := Xor(s2, s);
    e := Col(s2, s, s, s3);
    Multiples(s);
    TimesOne(s);
    XorCommutes(s2, s);
  }

  /** The entry of Td0 for a value of Si. */
  method DecEntry(s: Byte) returns (e: Col)
    ensures e == Entry(Coef(14, 9, 13, 11), s)
  {
    var s2 := Xtime(s);
    var s4 := Xtime(s2);
    var s8 := Xtime(s4);
    var s9 := Xor(s8, s);
    var sb := Xor(s9, s2);
    var sd := Xor(Xor(s8, s4), s);
    var se := Xor(Xor(s8, s4), s2);
    e := Col(se, s9, sd, sb);
    DecMultiples(s);
  }

  lemma DecMultiples(s: Byte)
    ensures var s2, s4, s8 := Xtime(s), Xtime(Xtime(s)), Xtime(Xtime(Xtime(s)));
            && Times(9, s) == Xor(s8, s) && Times(11, s) == Xor(Xor(s8, s), s2)
            && Times(13, s) == Xor(Xor(s8, s4), s) && Times(14, s) == Xor(Xor(s8, s4), s2)
  {
    var s2, s4, s8 := Xtime(s), Xtime(Xtime(s)), Xtime(Xtime(Xtime(s)));
    Multiples(s);
    forall i | 0 <= i < 8
      ensures Bit(Times(9, s), i) == Bit(Xor(s8, s), i)
      ensures Bit(Times(11, s), i) == Bit(Xor(Xor(s8, s), s2), i)
      ensures Bit(Times(13, s), i) == Bit(Xor(Xor(s8, s4), s), i)
      ensures Bit(Times(14, s), i) == Bit(Xor(Xor(s8, s4), s2), i)
    {
      XorsAt(i);
    }
    ByBits(Times(9, s), Xor(s8, s));
    ByBits(Times(11, s), Xor(Xor(s8, s), s2));
    ByBits(Times(13, s), Xor(Xor(s8, s4), s));
    ByBits(Times(14, s), Xor(Xor(s8, s4), s2));
  }

  lemma Rotated(p: Coef, y: Byte)
    ensures Rotate24(Entry(p, y)) == Entry(TurnBack(p), y)
  {
  }

  // ----- aes_gen_tables

  /** The factors in the tables Te0 to Te4 and Td0 to Td4, and the box they are applied to. */
  function Factors(j: nat): Coef
    requires j < 10
  {
    if j == 4 || j == 9 then Coef(1, 1, 1, 1)
    else if j == 0 then Coef(2, 1, 1, 3)
    else if j == 5 then Coef(14, 9, 13, 11)
    else TurnBack(Factors(j - 1))
  }

  function BoxOf(S: Box, Si: Box, j: nat): Box {
    if j < 5 then S else Si
  }

  function Nth(t: Tables, j: nat): Table
    requires j < 10
  {
    [t.te0, t.te1, t.te2, t.te3, t.te4, t.td0, t.td1, t.td2, t.td3, t.td4][j]
  }

  /** The first k entries of a table. */
  ghost predicate Filled(t: array<Col>, p: Coef, S: Box, k: nat)
    reads t
  {
    t.Length == 256 && k <= 256 && forall x :: 0 <= x < k ==> t[x] == Entry(p, S[x])
  }

  /** Of the tables for which there is a place the first i have k + 1 entries, the others k. */
  ghost predicate Halfway(S: Box, Si: Box, k: nat, i: nat, at: seq<array?<Col>>)
    requires |at| == 10
    reads at
  {
    forall j :: 0 <= j < 10 && at[j] != null ==>
      Filled(at[j], Factors(j), BoxOf(S, Si, j), if j < i then k + 1 else k)
  }

  /** No two tables share a place. */
  predicate Distinct(at: seq<array?<Col>>) {
    forall i, j :: 0 <= i < j < |at| && at[i] != null ==> at[i] != at[j]
  }

  /** The entry of a table, if there is a place for it. */
  method Store(S: Box, Si: Box, k: nat, i: nat, at: seq<array?<Col>>, e: Col)
    requires k < 256 && i < 10 == |at| && Distinct(at) && Halfway(S, Si, k, i, at)
    requires e == Entry(Factors(i), BoxOf(S, Si, i)[k])
    modifies at
    ensures Halfway(S, Si, k, i + 1, at)
  {
    if at[i] != null {
      StoreAt(at[i], Factors(i), BoxOf(S, Si, i), k, e);
    }
    assert forall j :: 0 <= j < 10 && at[j] != null && j != i ==>
      Filled(at[j], Factors(j), BoxOf(S, Si, j), if j < i + 1 then k + 1 else k);
  }

  method StoreAt(t: array<Col>, p: Coef, S: Box, k: nat, e: Col)
    requires k < 256 && Filled(t, p, S, k) && e == Entry(p, S[k])
    modifies t
    ensures Filled(t, p, S, k + 1)
  {
    t[k] := e;
  }

  /** The entries of the tables of one direction, from the entry for its first one. */
  method StoreFive(S: Box, Si: Box, k: nat, i: nat, at: seq<array?<Col>>, e: Col, s: Byte)
    requires k < 256 && (i == 0 || i == 5) && |at| == 10 && Distinct(at) && Halfway(S, Si, k, i, at)
    requires s == BoxOf(S, Si, i)[k] && e == Entry(Factors(i), s)
    modifies at
    ensures Halfway(S, Si, k, i + 5, at)
  {
    Rotated(Factors(i), s);
    Rotated(Factors(i + 1), s);
    Rotated(Factors(i + 2), s);
    TimesOne(s);
    Store(S, Si, k, i, at, e);
    Store(S, Si, k, i + 1, at, Rotate24(e));
    Store(S, Si, k, i + 2, at, Rotate16(e));
    Store(S, Si, k, i + 3, at, Rotate8(e));
    Store(S, Si, k, i + 4, at, Col(s, s, s, s));
  }

  lemma AllFilled(S: Box, Si: Box, at: seq<array?<Col>>, j: nat)
    requires |at| == 10 && Halfway(S, Si, 256, 0, at) && j < 10 && at[j] != null
    ensures at[j][..] == Nth(Standard(S, Si), j)
  {
    assert at[j][..] == Column(Factors(j), BoxOf(S, Si, j));
  }

  /** aes_gen_tables: of the ten tables of an S-box and its inverse those for which there
      is a place. */
  method GenTables(S: Box, Si: Box, at: seq<array?<Col>>)
    requires |at| == 10 && Distinct(at) && forall j :: 0 <= j < 10 && at[j] != null ==> at[j].Length == 256
    modifies at
    ensures forall j :: 0 <= j < 10 && at[j] != null ==> at[j][..] == Nth(Standard(S, Si), j)
  {
    var k := 0;
    while k < 256
      invariant k <= 256 && Halfway(S, Si, k, 0, at)
    {
      var te0tmp := EncEntry(S[k]);
      var td0tmp := DecEntry(Si[k]);
      StoreFive(S, Si, k, 0, at, te0tmp, S[k]);
      StoreFive(S, Si, k, 5, at, td0tmp, Si[k]);
      k := k + 1;
    }
    forall j | 0 <= j < 10 && at[j] != null ensures at[j][..] == Nth(Standard(S, Si), j) {
      AllFilled(S, Si, at, j);
    }
  }
}
