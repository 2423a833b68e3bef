/** The ordered list of component ids a composite payment method is being built from
    (`form.componentesIds`) and the three ways the editor changes it: the checkbox next to
    a simple method, the remove button and the up/down arrows. */
module ComponentList {
  import opened Seqs

  datatype Direction = Up | Down

  /** `ids.filter(x => x !== id)`. */
  function Without(id: int): int -> bool {
    x => x != id
  }

  /** `removeSelected`: every occurrence of `id` goes, everything else stays in order. */
  function Remove(ids: seq<int>, id: int): (r: seq<int>)
    ensures id !in r
    ensures forall x :: x != id ==> multiset(r)[x] == multiset(ids)[x]
    ensures IsSubseq(r, ids)
    ensures id !in ids ==> r == ids
  {
    assert forall x :: x != id ==> multiset(Filter(ids, Without(id)))[x] == multiset(ids)[x] by {
      forall x | x != id ensures multiset(Filter(ids, Without(id)))[x] == multiset(ids)[x] {
        FilterCount(ids, Without(id), x);
      }
    }
    FilterIsSubseq(ids, Without(id));
    assert id !in ids ==> Filter(ids, Without(id)) == ids by {
      if id !in ids {
        FilterAll(ids, Without(id));
      }
    }
    Filter(ids, Without(id))
  }

  /** `toggleComponente`: the checkbox flips; a newly checked method goes to the end. */
  function Toggle(ids: seq<int>, id: int): (r: seq<int>)
    ensures id in r <==> id !in ids
    ensures forall x :: x != id ==> multiset(r)[x] == multiset(ids)[x]
    ensures id !in ids ==> r == ids + [id]
    ensures id in ids ==> IsSubseq(r, ids)
  {
    if id in ids then Remove(ids, id) else ids + [id]
  }

  /** Checking and then unchecking a method leaves the list as it was. */
  lemma {:induction false} ToggleTwiceRestores(ids: seq<int>, id: int)
    requires id !in ids
    ensures Toggle(Toggle(ids, id), id) == ids
  {
    FilterAppend(ids, [id], Without(id));
    FilterAll(ids, Without(id));
    assert Filter([id], Without(id)) == [];
  }

  /** Unchecking and re-checking a method moves it to the end of the list. */
  lemma {:induction false} ToggleTwiceMovesToEnd(ids: seq<int>, id: int)
    requires id in ids
    ensures Toggle(Toggle(ids, id), id) == Remove(ids, id) + [id]
  {
  }

  /** Toggling never introduces a repeated id. */
  lemma ToggleKeepsNoDup(ids: seq<int>, id: int)
    requires NoDup(ids)
    ensures NoDup(Toggle(ids, id))
  {
    if id in ids {
      FilterNoDup(ids, Without(id));
    } else {
      var r := ids + [id];
      forall i, j | 0 <= i < j < |r| ensures r[i] != r[j] {
        if j == |ids| {
          assert r[i] == ids[i];
        }
      }
    }
  }

  /** `s` with the elements at `i` and `j` exchanged. */
  function Swap(s: seq<int>, i: int, j: int): (r: seq<int>)
    requires 0 <= i < |s| && 0 <= j < |s|
    ensures |r| == |s| && r[i] == s[j] && r[j] == s[i]
    ensures forall k :: 0 <= k < |s| && k != i && k != j ==> r[k] == s[k]
    ensures multiset(r) == multiset(s)
  {
    s[i := s[j]][j := s[i]]
  }

  /** The position the arrow moves the first occurrence of `id` to. */
  function Target(i: int, dir: Direction): int {
    match dir
    case Up => i - 1
    case Down => i + 1
  }

  /** `moveSelected`: the first occurrence of `id` trades places with its neighbour in the
      arrow's direction; at either end, or for an id not in the list, nothing changes. */
  function Move(ids: seq<int>, id: int, dir: Direction): (r: seq<int>)
    ensures |r| == |ids|
    ensures multiset(r) == multiset(ids)
    ensures id !in ids ==> r == ids
    ensures id in ids && 0 <= Target(IndexOf(ids, id), dir) < |ids| ==>
      var i, j := IndexOf(ids, id), Target(IndexOf(ids, id), dir);
      r[j] == id && r[i] == ids[j] && forall k :: 0 <= k < |ids| && k != i && k != j ==> r[k] == ids[k]
    ensures id in ids && !(0 <= Target(IndexOf(ids, id), dir) < |ids|) ==> r == ids
    ensures ids != [] && dir == Up && ids[0] == id ==> r == ids
  {
    var i := IndexOf(ids, id);
    if i == -1 then ids
    else
      var j := Target(i, dir);
      if j < 0 || j >= |ids| then ids else Swap(ids, i, j)
  }

  /** The up arrow undoes the down arrow and vice versa, when ids are not repeated. */
  lemma {:induction false} MoveRoundTrip(ids: seq<int>, id: int, dir: Direction)
    requires NoDup(ids)
    requires id in ids
    requires 0 <= Target(IndexOf(ids, id), dir) < |ids|
    ensures Move(Move(ids, id, dir), id, if dir == Up then Down else Up) == ids
  {
    var i := IndexOf(ids, id);
    var j := Target(i, dir);
    var back := if dir == Up then Down else Up;
    MoveSwaps(ids, id, dir);
    var once := Swap(ids, i, j);
    MoveKeepsNoDup(ids, id, dir);
    IndexOfNoDup(once, j);
    assert Target(j, back) == i;
    MoveSwaps(once, id, back);
    SwapBack(ids, i, j);
  }

  /** An arrow that has somewhere to go swaps the id with that neighbour. */
  lemma MoveSwaps(ids: seq<int>, id: int, dir: Direction)
    requires id in ids
    requires 0 <= Target(IndexOf(ids, id), dir) < |ids|
    ensures Move(ids, id, dir) == Swap(ids, IndexOf(ids, id), Target(IndexOf(ids, id), dir))
  {
  }

  /** Swapping the same two positions twice changes nothing. */
  lemma SwapBack(s: seq<int>, i: int, j: int)
    requires 0 <= i < |s| && 0 <= j < |s|
    ensures Swap(Swap(s, i, j), j, i) == s
  {
    var t := Swap(Swap(s, i, j), j, i);
    assert forall k :: 0 <= k < |s| ==> t[k] == s[k];
  }

  /** Moving never introduces a repeated id. */
  lemma MoveKeepsNoDup(ids: seq<int>, id: int, dir: Direction)
    requires NoDup(ids)
    ensures NoDup(Move(ids, id, dir))
  {
    var r := Move(ids, id, dir);
    forall x ensures multiset(r)[x] <= 1 {
      NoDupCount(ids, x);
    }
    CountNoDup(r);
  }
}
