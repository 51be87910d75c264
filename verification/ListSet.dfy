/** Linked lists that share no element, so that each can be changed without the others. */
module ListSets {
  import opened Options
  import opened Lists

  ghost function NodesOf<T>(ls: set<List<T>>): set<ListElement<T>>
    reads ls
  {
    set l, e | l in ls && e in l.Nodes() :: e
  }

  ghost predicate Apart<T>(ls: set<List<T>>)
    reads ls, NodesOf(ls)
  {
    && (forall l :: l in ls ==> l.Valid())
    && (forall l, m :: l in ls && m in ls && l != m ==> l.Nodes() !! m.Nodes())
  }

  method AppendTo<T>(l: List<T>, t: T, ghost ls: set<List<T>>)
    requires l in ls && Apart(ls)
    modifies l, l.Nodes()
    ensures Apart(ls) && fresh(NodesOf(ls) - old(NodesOf(ls)))
    ensures l.Values() == old(l.Values()) + [t]
  {
    hide List.Valid, List.Values, List.Contents;
    assert forall m :: m in ls && m != l ==> m.Valid() && m.Nodes() !! l.Nodes();
    l.Append(t);
    assert forall m :: m in ls && m != l ==> m.Valid() && m.Nodes() !! l.Nodes();
  }

  method RemoveFrom<T>(l: List<T>, ghost ls: set<List<T>>) returns (r: Option<T>)
    requires l in ls && Apart(ls)
    modifies l
    ensures Apart(ls) && NodesOf(ls) <= old(NodesOf(ls))
    ensures r == if old(l.Values()) == [] then None else Some(old(l.Values())[0])
    ensures l.Values() == if old(l.Values()) == [] then [] else old(l.Values())[1..]
  {
    hide List.Valid, List.Values, List.Contents;
    r := l.Remove();
  }

  lemma ApartPlus<T>(ls: set<List<T>>, l: List<T>)
    requires Apart(ls) && l.Valid() && l.Nodes() == {}
    ensures Apart(ls + {l}) && NodesOf(ls + {l}) == NodesOf(ls)
  {
    hide List.Valid;
  }
}
