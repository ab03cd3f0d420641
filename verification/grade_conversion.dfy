/** The quick converter and reference table of src/pages/GradeConversion.tsx. */
module GradeConversion {
  import opened Wrappers
  import GpaUtils

  /** `convert10to4`: the first band (from the top) whose inclusive lower bound the score reaches. */
  function Convert10to4(score: real): (r: real)
    ensures r in GpaUtils.Gpa4Scale
    ensures r == 4.0 <==> score >= 9.0
    ensures r == 3.7 <==> 8.5 <= score < 9.0
    ensures r == 0.0 <==> score < 4.0
  {
    if score >= 9.0 then 4.0
    else if score >= 8.5 then 3.7
    else if score >= 8.0 then 3.5
    else if score >= 7.0 then 3.0
    else if score >= 6.5 then 2.5
    else if score >= 5.5 then 2.0
    else if score >= 5.0 then 1.5
    else if score >= 4.0 then 1.0
    else 0.0
  }

  /** A higher score never converts to a lower grade point. */
  lemma Convert10to4Monotone(a: real, b: real)
    requires a <= b
    ensures Convert10to4(a) <= Convert10to4(b)
  {
  }

  /** The converter and the semester GPA tier of the grade engine agree on every input. */
  lemma Convert10to4AgreesWithSemesterTier(score: real)
    ensures Convert10to4(score) == GpaUtils.Gpa4(score)
  {
  }

  /** `handleConvert`: the shown 4-point result after pressing Convert. `parsed` is `parseFloat` of
      the input, `None` when it is not a number; `shown` is the result on screen before. */
  function HandleConvert(parsed: Option<real>, shown: Option<real>): (r: Option<real>)
    ensures parsed.None? ==> r == shown
    ensures parsed.Some? ==> r.Some? && r.value in GpaUtils.Gpa4Scale
    ensures parsed.Some? ==> r.value == GpaUtils.Gpa4(parsed.value)
  {
    match parsed
    case None => shown
    case Some(score) => Some(Convert10to4(score))
  }

  /** A row of the reference table: the 10-point range as displayed, its grade point and letter. */
  datatype ReferenceRow = ReferenceRow(low: real, high: real, gpa4: real, letter: string)

  const ReferenceTable: seq<ReferenceRow> := [
    ReferenceRow(9.0, 10.0, 4.0, "A+"),
    ReferenceRow(8.5, 8.9, 3.7, "A"),
    ReferenceRow(8.0, 8.4, 3.5, "B+"),
    ReferenceRow(7.0, 7.9, 3.0, "B"),
    ReferenceRow(6.5, 6.9, 2.5, "C+"),
    ReferenceRow(5.5, 6.4, 2.0, "C"),
    ReferenceRow(5.0, 5.4, 1.5, "D+"),
    ReferenceRow(4.0, 4.9, 1.0, "D"),
    ReferenceRow(0.0, 3.9, 0.0, "F")
  ]

  /** Reading a score off a table from row `from` on: the grade point of the first row whose lower
      bound it reaches, 0 below every row. */
  function TableLookup(rows: seq<ReferenceRow>, from: nat, score: real): real
    decreases |rows| - from
  {
    if from >= |rows| then 0.0
    else if rows[from].low <= score then rows[from].gpa4
    else TableLookup(rows, from + 1, score)
  }

  /** The converter is exactly a lookup in the reference table it displays. */
  lemma Convert10to4IsTableLookup(score: real)
    ensures Convert10to4(score) == TableLookup(ReferenceTable, 0, score)
  {
  }

  /** Both ends of every displayed range convert to that row's grade point. */
  lemma ReferenceRowsMatchConverter()
    ensures forall i :: 0 <= i < |ReferenceTable| ==>
              Convert10to4(ReferenceTable[i].low) == ReferenceTable[i].gpa4
              && Convert10to4(ReferenceTable[i].high) == ReferenceTable[i].gpa4
  {
  }

  /** The displayed ranges cover 0.0 to 10.0 in tenths without gap or overlap, highest first. */
  lemma ReferenceRowsContiguous()
    ensures ReferenceTable[0].high == 10.0
    ensures ReferenceTable[|ReferenceTable| - 1].low == 0.0
    ensures forall i :: 0 <= i < |ReferenceTable| - 1 ==>
              ReferenceTable[i + 1].high + 0.1 == ReferenceTable[i].low
    ensures forall i :: 0 <= i < |ReferenceTable| ==> ReferenceTable[i].low <= ReferenceTable[i].high
  {
  }
}
