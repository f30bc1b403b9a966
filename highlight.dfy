/** The First Name cell of a result row: a highlighted span holding the
    query text, followed by the first name with its first `|query|`
    characters dropped (`firstName.substring(inputValue.length)`). */
module Highlight {

  /** The plain, unhighlighted part of the cell. `substring` clamps a start
      past the end to the end, so a query longer than the name leaves
      nothing. */
  function PlainPart(firstName: string, query: string): (plain: string)
    ensures |query| <= |firstName| ==> firstName[..|query|] + plain == firstName
    ensures plain == [] <==> |firstName| <= |query|
  {
    if |query| <= |firstName| then firstName[|query|..] else []
  }

  /** The whole text of the cell: the highlighted query, then the plain part. */
  function FirstNameCell(firstName: string, query: string): (cell: string)
    ensures |cell| == if |query| <= |firstName| then |firstName| else |query|
    ensures cell[..|query|] == query
    ensures cell[|query|..] == PlainPart(firstName, query)
  {
    query + PlainPart(firstName, query)
  }

  /** The cell reads as the first name exactly when the query is, character
      for character, a prefix of the first name. */
  lemma CellShowsNameIffPrefix(firstName: string, query: string)
    ensures FirstNameCell(firstName, query) == firstName <==>
            (|query| <= |firstName| && firstName[..|query|] == query)
  {
    var cell := FirstNameCell(firstName, query);
    if cell == firstName {
      assert cell[..|query|] == query;
    } else if |query| <= |firstName| {
      assert firstName[..|query|] + PlainPart(firstName, query) == firstName;
    }
  }

  /** What the cell shows for two queries that match Bob Lee: it misquotes
      the first name, and after a click on the row it shows the full name. */
  lemma CellMisquotesName()
    ensures FirstNameCell("Bob", "ee") == "eeb"
    ensures FirstNameCell("Bob", "Bob Lee") == "Bob Lee"
  {
    assert "Bob"[2..] == "b";
  }

  /** A first-name cell split into its highlighted and plain parts. */
  datatype Cell = Cell(marked: string, plain: string)

  /** The cell as the comment above the span says it should be, highlighting
      "the matching part of the text": the first name itself, its first
      `|query|` characters (all of it, if the query is longer) highlighted
      and the rest plain. */
  function IntendedFirstNameCell(firstName: string, query: string): (c: Cell)
    ensures c.marked + c.plain == firstName
    ensures |c.marked| == if |query| <= |firstName| then |query| else |firstName|
  {
    var k := if |query| <= |firstName| then |query| else |firstName|;
    assert firstName[..k] + firstName[k..] == firstName;
    Cell(firstName[..k], firstName[k..])
  }

  /** Where the query is a case-exact prefix of the first name, the intended
      cell and the written one show the same text with the same split. */
  lemma IntendedAgreesOnPrefix(firstName: string, query: string)
    requires |query| <= |firstName| && firstName[..|query|] == query
    ensures IntendedFirstNameCell(firstName, query) ==
            Cell(query, PlainPart(firstName, query))
  {
  }
}
