/** The constant tables of the instrument-map module and the encoding of a
    raw detector pixel as one integer. */
module Tables {

  /** Detector names of one focal-plane module and their indices. */
  const DETNAM: map<string, nat> := map["DET0" := 0, "DET1" := 1, "DET2" := 2, "DET3" := 3]

  /** Weight of each event grade 0..26 when the probability patches of one
      raw pixel are summed. */
  const GRADE_WT: seq<real> :=
    [1.00000, 0.124902, 0.117130, 0.114720, 0.118038,
     0.0114296, 0.0101738, 0.0113617, 0.0122017, 0.0157910,
     0.0144079, 0.0145691, 0.0149934, 0.00165462, 0.00194312,
     0.00156128, 0.00143400, 0.00210433, 0.00180735, 0.00140006,
     0.00169704, 0.00189220, 0.00160371, 0.00150188, 0.00168007,
     0.000296983, 0.000364864]

  /** `GRADE_WT[grade]` with Python list indexing: a negative grade counts
      from the end of the table; anything outside [-27, 27) raises. */
  function GradeWeight(grade: int): (w: real)
    requires -|GRADE_WT| <= grade < |GRADE_WT|
    ensures 0.0 < w <= GRADE_WT[0]
  {
    var k := if grade >= 0 then grade else grade + |GRADE_WT|;
    assert forall i :: 0 <= i < |GRADE_WT| ==> 0.0 < GRADE_WT[i] <= 1.0;
    GRADE_WT[k]
  }

  /** The id of raw pixel (x, y) of a 32 x 32 detector: x + 32 y. */
  function RawId(x: int, y: int): int
  {
    x + y * 32
  }

  /** The id of a raw pixel lies in [0, 1023] and gives back both
      coordinates: the encoding is a bijection onto [0, 1024). */
  lemma RawIdDecodes(x: int, y: int)
    requires 0 <= x < 32 && 0 <= y < 32
    ensures 0 <= RawId(x, y) < 1024
    ensures RawId(x, y) % 32 == x && RawId(x, y) / 32 == y
  {
    var id := RawId(x, y);
    assert id == y * 32 + x;
  }

  /** Two raw pixels of a detector share an id only if they are the same
      pixel. */
  lemma RawIdInjective(x: int, y: int, x': int, y': int)
    requires 0 <= x < 32 && 0 <= y < 32 && 0 <= x' < 32 && 0 <= y' < 32
    requires RawId(x, y) == RawId(x', y')
    ensures x == x' && y == y'
  {
    RawIdDecodes(x, y);
    RawIdDecodes(x', y');
  }
}
