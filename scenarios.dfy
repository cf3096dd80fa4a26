/**
 * A client of the list that drives it the way the interactive menu of
 * main.c does, and checks that the contracts of the list operations alone
 * determine every answer.
 */
module Scenarios {
  import opened TextSeq
  import opened LinkedList

  method AppendListQuery()
  {
    var l := new TextList();
    l.Insert("A");
    l.Insert("B");
    l.Insert("C");
    var shown := l.List();
    assert shown == Shown(["A", "B", "C"]);
    var second := l.Get(1);
    assert second == Some("B");
    var beyond := l.Get(5);
    assert beyond == None;
    var negative := l.Get(-1);
    assert negative == None;
  }

  method RemoveOnlyFirstMatch()
  {
    var l := new TextList();
    var missing := l.Remove("X");
    assert !missing && l.Contents == [];
    l.Insert("A");
    l.Insert("B");
    l.Insert("A");
    var removed := l.Remove("A");
    assert removed && l.Contents == ["B", "A"];
  }

  method UpdateThenUpdateAgain()
  {
    var l := new TextList();
    l.Insert("X");
    var changed := l.Update("X", "Y");
    assert changed && l.Contents == ["Y"];
    var again := l.Update("X", "Z");
    assert !again && l.Contents == ["Y"];
  }
}
