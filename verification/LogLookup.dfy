/** Firmware log ids, `include/rgx_fwif_sf.h`, and the lookup of `include/rgxfw_log_helper.h`. */
module LogLookup {
  import opened Bits
  import opened Fields
  import opened TlPacket

  const IDMARKER: nat := 0x7000_0000
  const IDMASK: nat := 0xFFF0_0000

  /** `RGXFW_LOG_CREATESFID` */
  function CreateSfId(id: U32, gid: U32, params: U32): nat {
    Or(Or(Or(id, Low(Shl(gid, 12), 32)), Low(Shl(params, 16), 32)), IDMARKER)
  }

  function Gid(x: U32): nat {
    And(Shr(x, 12), 0xF)
  }

  function ParamNum(x: U32): nat {
    And(Shr(x, 16), 0xF)
  }

  predicate ValidId(x: U32) {
    And(x, IDMASK) == IDMARKER
  }

  /** `RGXFW_SF_LAST`: its id number does not fit the 12 bits and runs into the group. */
  const SF_LAST: U32 := 0x700F_FFFF

  predicate InRange(id: nat, gid: nat, params: nat) {
    id < 0x1000 && gid < 0x10 && params < 0x10
  }

  lemma LastIsCreated()
    ensures CreateSfId(65535, 0, 15) == SF_LAST
  {
    Pow2Values();
    ZeroShifts(12);
    ShlIsMul(15, 16);
    LowOfSmall(Shl(15, 16), 32);
    LowOfZero(32);
    OrDisjoint(65535, 15, 16);
    ShlIsMul(7, 28);
    OrDisjoint(0xF_FFFF, 7, 28);
  }

  /** Within their ranges the columns of the table are added up. */
  lemma SfIdIsSum(id: nat, gid: nat, params: nat)
    requires InRange(id, gid, params)
    ensures CreateSfId(id, gid, params) == id + gid * 0x1000 + params * 0x1_0000 + IDMARKER
  {
    Pow2Values();
    ShlIsMul(gid, 12);
    ShlIsMul(params, 16);
    LowOfSmall(Shl(gid, 12), 32);
    LowOfSmall(Shl(params, 16), 32);
    OrDisjoint(id, gid, 12);
    OrDisjoint(id + gid * 0x1000, params, 16);
    ShlIsMul(7, 28);
    OrDisjoint(id + gid * 0x1000 + params * 0x1_0000, 7, 28);
  }

  lemma GettersInArithmetic(x: U32)
    ensures Gid(x) == x / 0x1000 % 0x10 && ParamNum(x) == x / 0x1_0000 % 0x10
    ensures ValidId(x) <==> x / 0x10_0000 == 0x700
  {
    Pow2Values();
    AndLowMask(Shr(x, 12), 4);
    AndLowMask(Shr(x, 16), 4);
    ShrLowAreDivMod(x, 12);
    ShrLowAreDivMod(x, 16);
    ShrLowAreDivMod(Shr(x, 12), 4);
    ShrLowAreDivMod(Shr(x, 16), 4);
    ShlIsMul(0xFFF, 20);
    AndField(x, 20, 12);
    ShrLowAreDivMod(x, 20);
    LowOfSmall(x / 0x10_0000, 12);
    ShlIsMul(x / 0x10_0000, 20);
  }

  lemma FieldsOfSum(id: nat, gid: nat, params: nat, x: nat)
    requires InRange(id, gid, params) && x == id + gid * 0x1000 + params * 0x1_0000 + IDMARKER
    ensures x < WORD && x % 0x1000 == id && x / 0x1000 == gid + params * 0x10 + 0x7_0000
    ensures x / 0x1_0000 == params + 0x7000 && x / 0x10_0000 == 0x700
  {
  }

  /** The getters recover group and parameter count, and the marker makes the id valid. */
  lemma SfIdFields(id: nat, gid: nat, params: nat)
    requires InRange(id, gid, params)
    ensures var x := CreateSfId(id, gid, params);
            x < WORD && x % 0x1000 == id && Gid(x) == gid && ParamNum(x) == params && ValidId(x)
  {
    hide CreateSfId, Gid, ParamNum, ValidId;
    var x := CreateSfId(id, gid, params);
    SfIdIsSum(id, gid, params);
    FieldsOfSum(id, gid, params, x);
    GettersInArithmetic(x);
    assert (gid + params * 0x10 + 0x7_0000) % 0x10 == gid && (params + 0x7000) % 0x10 == params;
  }

  // ---------- The lookup ----------

  /** `found` is the first place that holds `checkData` before the sentinel, or else the
      sentinel itself. */
  ghost predicate IsLookup(table: seq<U32>, checkData: U32, found: U32) {
    && (found != SF_LAST ==>
          && found < |table| && table[found] == checkData
          && checkData !in table[..found] && SF_LAST !in table[..found + 1])
    && (found == SF_LAST ==> forall i :: 0 <= i < |table| && SF_LAST !in table[..i + 1] ==> table[i] != checkData)
  }

  /** `idToStringID` on a table that holds the sentinel. */
  method IdToStringId(checkData: U32, table: array<U32>) returns (found: U32)
    requires SF_LAST in table[..] && table.Length <= SF_LAST
    ensures IsLookup(table[..], checkData, found)
  {
    found := SF_LAST;
    var i := 0;
    while table[i] != SF_LAST
      invariant 0 <= i < table.Length && SF_LAST !in table[..i]
      invariant checkData !in table[..i] && found == SF_LAST
      decreases table.Length - i
    {
      if checkData == table[i] {
        found := i;
        break;
      }
      i := i + 1;
      assert SF_LAST !in table[..i];
    }
  }

  datatype Row = Row(id: nat, gid: nat, params: nat)

  /** The columns are in range, and no two rows have the same group and number. */
  predicate RowsOk(rows: seq<Row>) {
    && (forall i :: 0 <= i < |rows| ==> InRange(rows[i].id, rows[i].gid, rows[i].params))
    && (forall i, j :: 0 <= i < j < |rows| ==> (rows[i].gid, rows[i].id) != (rows[j].gid, rows[j].id))
  }

  function Encoded(row: Row): U32
    requires InRange(row.id, row.gid, row.params)
  {
    SfIdFields(row.id, row.gid, row.params);
    CreateSfId(row.id, row.gid, row.params)
  }

  function Table(rows: seq<Row>): seq<U32>
    requires RowsOk(rows)
  {
    seq(|rows|, i requires 0 <= i < |rows| => Encoded(rows[i])) + [SF_LAST]
  }

  /** One row in range collides with the sentinel: the one with all fields full. */
  lemma CollidesIff(row: Row)
    requires InRange(row.id, row.gid, row.params)
    ensures Encoded(row) == SF_LAST <==> row == Row(0xFFF, 0xF, 0xF)
  {
    hide CreateSfId;
    SfIdIsSum(row.id, row.gid, row.params);
  }

  /** The lookup inverts the table, and a row's columns are recovered from its id. */
  lemma LookupInvertsTable(rows: seq<Row>, k: nat, found: U32)
    requires RowsOk(rows) && Row(0xFFF, 0xF, 0xF) !in rows && k < |rows| && |rows| < SF_LAST
    requires IsLookup(Table(rows), Encoded(rows[k]), found)
    ensures found == k
    ensures Gid(Table(rows)[found]) == rows[k].gid && ParamNum(Table(rows)[found]) == rows[k].params
  {
    hide CreateSfId, Gid, ParamNum, ValidId;
    var table := Table(rows);
    forall i | 0 <= i < |rows| ensures table[i] == Encoded(rows[i]) != SF_LAST && (i != k ==> table[i] != table[k]) {
      CollidesIff(rows[i]);
      SfIdFields(rows[i].id, rows[i].gid, rows[i].params);
      SfIdFields(rows[k].id, rows[k].gid, rows[k].params);
    }
    SfIdFields(rows[k].id, rows[k].gid, rows[k].params);
    assert SF_LAST !in table[..k + 1];
  }

  /** Ids are ordered by parameter count first, so rows in the order of their numbers need not
      be in the order of their ids ... */
  lemma IdOrder(a: Row, b: Row)
    requires InRange(a.id, a.gid, a.params) && InRange(b.id, b.gid, b.params)
    ensures Encoded(a) < Encoded(b) <==>
              a.params < b.params || (a.params == b.params && (a.gid < b.gid || (a.gid == b.gid && a.id < b.id)))
  {
    hide CreateSfId;
    SfIdIsSum(a.id, a.gid, a.params);
    SfIdIsSum(b.id, b.gid, b.params);
  }

  /** ... as the first two rows of the main group show, although the source's comment takes the
      ids to be increasing. */
  lemma FirstRowsAreOutOfOrder()
    ensures Encoded(Row(2, 1, 2)) < Encoded(Row(1, 1, 6))
  {
    IdOrder(Row(2, 1, 2), Row(1, 1, 6));
  }
}
