/** code/network/post.cc: the mailboxes of a machine, each on a linked list of its own. */
module MailBoxes {
  import opened Lists
  import opened ListSets
  import opened Mails

  ghost function AsSet(ls: seq<List<Mail>>): set<List<Mail>> {
    set l | l in ls
  }

  ghost predicate AllDifferent(ls: seq<List<Mail>>) {
    forall i, j :: 0 <= i < j < |ls| ==> ls[i] != ls[j]
  }

  /** What is in the mailboxes, oldest first. */
  ghost function AllMail(ls: seq<List<Mail>>): (s: seq<seq<Mail>>)
    reads AsSet(ls)
    ensures |s| == |ls| && forall i :: 0 <= i < |ls| ==> s[i] == ls[i].Values()
  {
    if ls == [] then [] else AllMail(ls[..|ls| - 1]) + [ls[|ls| - 1].Values()]
  }

  class Boxes {
    var boxes: seq<List<Mail>>
    ghost var repr: set<object>

    /** Every mailbox is a list in order, and no two share anything. */
    ghost predicate Valid()
      reads this, repr
      ensures Valid() ==> this in repr
    {
      && AsSet(boxes) <= repr && repr == {this} + AsSet(boxes) + NodesOf(AsSet(boxes))
      && Apart(AsSet(boxes)) && AllDifferent(boxes)
    }

    ghost function Contents(): seq<seq<Mail>>
      requires Valid()
      reads this, repr
    {
      AllMail(boxes)
    }

    constructor ()
      ensures Valid() && fresh(repr) && Contents() == []
    {
      boxes, repr := [], {this};
    }

    /** One more mailbox, empty. */
    method AddBox()
      requires Valid()
      modifies this
      ensures Valid() && fresh(repr - old(repr)) && Contents() == old(Contents()) + [[]]
    {
      var box := NewBox();
      hide Boxes.Valid, List.Values, List.Valid;
      Adopt(box);
    }

    method NewBox() returns (box: List<Mail>)
      requires Valid()
      ensures fresh(box) && box.Valid() && box.Nodes() == {} && box.Values() == [] && box !in AsSet(boxes)
      ensures Valid() && Contents() == old(Contents())
    {
      box := new List();
    }

    method Adopt(box: List<Mail>)
      requires Valid() && box !in AsSet(boxes) && box.Valid() && box.Nodes() == {}
      modifies this
      ensures Valid() && repr == old(repr) + {box} && Contents() == old(Contents()) + [box.Values()]
    {
      hide List.Values, List.Valid;
      ApartPlus(AsSet(boxes), box);
      assert AsSet(boxes + [box]) == AsSet(boxes) + {box};
      assert (boxes + [box])[..|boxes|] == boxes;
      boxes := boxes + [box];
      repr := repr + {box};
    }

    /** MailBox::Put */
    method Put(to: nat, mail: Mail)
      requires Valid() && to < |Contents()|
      modifies repr
      ensures Valid() && fresh(repr - old(repr))
      ensures Contents() == old(Contents())[to := old(Contents())[to] + [mail]]
    {
      hide List.Values, List.Nodes, Apart, AllMail;
      AppendTo(boxes[to], mail, AsSet(boxes));
      repr := {this} + AsSet(boxes) + NodesOf(AsSet(boxes));
    }

    /** MailBox::Get, when there is a message. */
    method Get(box: nat) returns (mail: Mail)
      requires Valid() && box < |Contents()| && Contents()[box] != []
      modifies repr
      ensures Valid() && fresh(repr - old(repr)) && mail == old(Contents())[box][0]
      ensures Contents() == old(Contents())[box := old(Contents())[box][1..]]
    {
      hide List.Values, List.Nodes, Apart, AllMail;
      var r := RemoveFrom(boxes[box], AsSet(boxes));
      mail := r.value;
      repr := {this} + AsSet(boxes) + NodesOf(AsSet(boxes));
    }
  }

  /** `new MailBox[nBoxes]` */
  method NewBoxes(nBoxes: nat) returns (b: Boxes)
    ensures b.Valid() && fresh(b) && fresh(b.repr)
    ensures |b.Contents()| == nBoxes && forall j :: 0 <= j < nBoxes ==> b.Contents()[j] == []
  {
    hide Boxes.Valid, Boxes.Contents;
    b := new Boxes();
    var i := 0;
    while i < nBoxes
      invariant b.Valid() && fresh(b.repr)
      invariant 0 <= i == |b.Contents()| <= nBoxes
      invariant forall j :: 0 <= j < i ==> b.Contents()[j] == []
    {
      b.AddBox();
      i := i + 1;
    }
  }
}
