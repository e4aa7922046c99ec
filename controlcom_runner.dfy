/**
 * `run_controlcom`: the rule-based stand-in for ControlCom that turns a
 * Korean description into the objects to insert, by looking for the words
 * "소파" (sofa) and "테이블" (table).
 */
module ControlcomRunner {

  /** One object to insert: its generation prompt, its box [x, y, w, h] in
      pixels, and the yaw and pitch it is to be rotated to. */
  datatype ObjectSpec = ObjectSpec(prompt: string, bbox: seq<int>, yaw: int, pitch: int)

  const SofaKey: string := "소파"
  const TableKey: string := "테이블"

  const Sofa: ObjectSpec :=
    ObjectSpec("a mint green sofa, gray background, studio lighting", [200, 500, 220, 110], -60, 10)
  const Table: ObjectSpec :=
    ObjectSpec("a small wooden coffee table, gray background, studio lighting", [300, 650, 160, 90], 0, 15)

  /** The fixed keyword-to-object table. */
  const Mapping: map<string, ObjectSpec> := map[SofaKey := Sofa, TableKey := Table]

  /** needle occurs in hay starting at position i. */
  predicate OccursAt(needle: string, hay: string, i: nat)
  {
    i + |needle| <= |hay| && hay[i..i + |needle|] == needle
  }

  /** Python's `needle in hay` on strings. */
  ghost predicate IsSubstring(needle: string, hay: string)
  {
    exists i: nat :: OccursAt(needle, hay, i)
  }

  lemma OccursAtTail(needle: string, hay: string, i: nat)
    requires |hay| > 0
    ensures OccursAt(needle, hay[1..], i) <==> OccursAt(needle, hay, i + 1)
  {
    if i + 1 + |needle| <= |hay| {
      assert hay[1..][i..i + |needle|] == hay[i + 1..i + 1 + |needle|];
    }
  }

  /** Substring search, front to back. */
  function Contains(hay: string, needle: string): (found: bool)
    ensures found <==> IsSubstring(needle, hay)
    decreases |hay|
  {
    if |hay| < |needle| then false
    else if hay[..|needle|] == needle then (assert OccursAt(needle, hay, 0); true)
    else
      var rest := Contains(hay[1..], needle);
      assert rest ==> IsSubstring(needle, hay) by {
        if rest {
          var i: nat :| OccursAt(needle, hay[1..], i);
          OccursAtTail(needle, hay, i);
        }
      }
      assert IsSubstring(needle, hay) ==> rest by {
        if IsSubstring(needle, hay) {
          var i: nat :| OccursAt(needle, hay, i);
          assert i != 0;
          OccursAtTail(needle, hay, i - 1);
        }
      }
      rest
  }

  /** `run_controlcom`. */
  method RunControlcom(description: string) returns (parsed: seq<ObjectSpec>)
    ensures Sofa in parsed <==> IsSubstring(SofaKey, description)
    ensures Table in parsed <==> IsSubstring(TableKey, description)
    ensures forall o :: o in parsed ==> o == Sofa || o == Table
    ensures Sofa in parsed && Table in parsed ==> parsed == [Sofa, Table]
    ensures |parsed| <= 2
    ensures forall i, j :: 0 <= i < j < |parsed| ==> parsed[i] != parsed[j]
    ensures !IsSubstring(SofaKey, description) && !IsSubstring(TableKey, description) ==> parsed == []
  {
    parsed := [];
    if Contains(description, SofaKey) {
      parsed := parsed + [Mapping[SofaKey]];
    }
    if Contains(description, TableKey) {
      parsed := parsed + [Mapping[TableKey]];
    }
  }
}
