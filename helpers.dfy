/** Capture helpers over one query match (pkg/helpers.go). A match is a sequence of
    captures; each search returns the first capture, in match order, with the given name. */
module Helpers {
  import opened Types

  /** caps[i] is the first capture named `name`. */
  predicate FirstNamed(caps: seq<Capture>, name: string, i: int) {
    0 <= i < |caps| && caps[i].name == name && forall j :: 0 <= j < i ==> caps[j].name != name
  }

  /** getByName: the text of the first capture named `name`, or "" when there is none. */
  function GetByName(caps: seq<Capture>, name: string): (r: string)
    ensures (forall i :: 0 <= i < |caps| ==> caps[i].name != name) ==> r == ""
    ensures forall i :: FirstNamed(caps, name, i) ==> r == caps[i].text
  {
    if caps == [] then ""
    else if caps[0].name == name then caps[0].text
    else
      assert forall i :: FirstNamed(caps, name, i) ==> FirstNamed(caps[1..], name, i - 1);
      GetByName(caps[1..], name)
  }

  /** rangeByName: the 1-based Range of the first capture named `name`
      (each 0-based coordinate plus one), or the zero Range when there is none. */
  function RangeByName(caps: seq<Capture>, name: string): (r: Range)
    ensures (forall i :: 0 <= i < |caps| ==> caps[i].name != name) ==> r == ZeroRange
    ensures forall i :: FirstNamed(caps, name, i) ==>
              && r.start == Pos(caps[i].startRow + 1, caps[i].startCol + 1)
              && r.end == Pos(caps[i].endRow + 1, caps[i].endCol + 1)
  {
    if caps == [] then ZeroRange
    else if caps[0].name == name then
      var c := caps[0];
      Range(Pos(c.startRow + 1, c.startCol + 1), Pos(c.endRow + 1, c.endCol + 1))
    else
      assert forall i :: FirstNamed(caps, name, i) ==> FirstNamed(caps[1..], name, i - 1);
      RangeByName(caps[1..], name)
  }

  /** firstNonEmptyBy: GetByName of the first name, in argument order, whose value is
      not "", or "" when every name gives "". */
  function FirstNonEmptyBy(caps: seq<Capture>, names: seq<string>): (r: string)
    ensures r == "" <==> forall i :: 0 <= i < |names| ==> GetByName(caps, names[i]) == ""
    ensures r != "" ==> exists i :: FirstNonEmptyAt(caps, names, i) && r == GetByName(caps, names[i])
  {
    if names == [] then ""
    else
      var v := GetByName(caps, names[0]);
      if v != "" then
        assert FirstNonEmptyAt(caps, names, 0);
        v
      else
        var r := FirstNonEmptyBy(caps, names[1..]);
        FirstNonEmptyShift(caps, names, r);
        r
  }

  /** When the first name gives "", the answer for the other names is the answer for all. */
  lemma FirstNonEmptyShift(caps: seq<Capture>, names: seq<string>, r: string)
    requires names != [] && GetByName(caps, names[0]) == ""
    requires r == "" <==> forall i :: 0 <= i < |names[1..]| ==> GetByName(caps, names[1..][i]) == ""
    requires r != "" ==> exists i :: FirstNonEmptyAt(caps, names[1..], i) && r == GetByName(caps, names[1..][i])
    ensures r == "" <==> forall i :: 0 <= i < |names| ==> GetByName(caps, names[i]) == ""
    ensures r != "" ==> exists i :: FirstNonEmptyAt(caps, names, i) && r == GetByName(caps, names[i])
  {
    assert forall i :: 1 <= i < |names| ==> names[i] == names[1..][i - 1];
    if r != "" {
      var i :| FirstNonEmptyAt(caps, names[1..], i) && r == GetByName(caps, names[1..][i]);
      assert FirstNonEmptyAt(caps, names, i + 1);
    }
  }

  /** names[i] is the first name whose capture text is not "". */
  predicate FirstNonEmptyAt(caps: seq<Capture>, names: seq<string>, i: int) {
    0 <= i < |names| && GetByName(caps, names[i]) != ""
    && forall j :: 0 <= j < i ==> GetByName(caps, names[j]) == ""
  }

  /** A capture that is found is never mapped to the zero Range: every coordinate is at least 1. */
  lemma RangeByNameOneBased(caps: seq<Capture>, name: string, i: int)
    requires 0 <= i < |caps| && caps[i].name == name
    ensures var r := RangeByName(caps, name);
            r.start.line >= 1 && r.start.col >= 1 && r.end.line >= 1 && r.end.col >= 1
  {
    var k := FirstIndexNamed(caps, name, i);
    assert FirstNamed(caps, name, k);
  }

  /** The index of the first capture named `name`, given that caps[i] has that name. */
  function FirstIndexNamed(caps: seq<Capture>, name: string, i: int): (k: int)
    requires 0 <= i < |caps| && caps[i].name == name
    ensures FirstNamed(caps, name, k) && k <= i
  {
    if caps[0].name == name then 0
    else
      var k := FirstIndexNamed(caps[1..], name, i - 1);
      k + 1
  }

  /** The text GetByName returns is "" or the text of a capture with that name. */
  lemma GetByNameFrom(caps: seq<Capture>, name: string)
    ensures GetByName(caps, name) == ""
            || exists i :: 0 <= i < |caps| && caps[i].name == name && GetByName(caps, name) == caps[i].text
  {
    if exists i :: 0 <= i < |caps| && caps[i].name == name {
      var i :| 0 <= i < |caps| && caps[i].name == name;
      var k := FirstIndexNamed(caps, name, i);
    }
  }
}
