/**
 The singly linked lists of src/smb_fd.c.

 Shares hang on the session and files on their share in the same way: appended at the end, looked
 up and unlinked by a 16-bit identifier. The three loops are written out twice there; here they are
 modelled once. `Remove` takes two keys because `smb_session_file_remove` does not compare the
 first element with the same thing as the others.
 */
module HandleList {
  import opened Sequences

  class Cell<T> {
    var next: Cell?<T>
    const key: nat
    const value: T

    constructor (key: nat, value: T)
      ensures this.key == key && this.value == value && next == null
    {
      this.key, this.value, next := key, value, null;
    }
  }

  /** The element at index `i`, or null past the end. */
  function CellAt<T>(cells: seq<Cell<T>>, i: nat): Cell?<T>
  {
    if i < |cells| then cells[i] else null
  }

  function Keys<T>(cells: seq<Cell<T>>): (r: seq<nat>)
    ensures |r| == |cells| && forall i :: 0 <= i < |r| ==> r[i] == cells[i].key
  {
    seq(|cells|, i requires 0 <= i < |cells| => cells[i].key)
  }

  // --- lookup on values -------------------------------------------------------------------------

  /** The first index from `from` on that holds `key`, or the length. */
  function First(keys: seq<nat>, key: nat, from: nat): (k: nat)
    requires from <= |keys|
    ensures from <= k <= |keys|
    ensures k < |keys| ==> keys[k] == key
    ensures forall i :: from <= i < k ==> keys[i] != key
    decreases |keys| - from
  {
    if from == |keys| || keys[from] == key then from else First(keys, key, from + 1)
  }

  lemma FirstUnique(keys: seq<nat>, key: nat, from: nat, k: nat)
    requires from <= k <= |keys|
    requires k < |keys| ==> keys[k] == key
    requires forall i :: from <= i < k ==> keys[i] != key
    ensures k == First(keys, key, from)
  {
    assert First(keys, key, from) >= k;
  }

  /** Which element is unlinked when the first is compared with one key and the rest with another. */
  function Removed(keys: seq<nat>, headKey: nat, tailKey: nat): (k: nat)
    ensures k <= |keys|
  {
    if keys == [] then 0 else if keys[0] == headKey then 0 else First(keys, tailKey, 1)
  }

  /** With one key for both, removal unlinks precisely what lookup finds. */
  lemma RemovedIsFirst(keys: seq<nat>, key: nat)
    ensures Removed(keys, key, key) == First(keys, key, 0)
  {
    FirstUnique(keys, key, 0, Removed(keys, key, key));
  }

  /**
   With two, it does so exactly if the element is at the head, or the keys coincide, or neither
   key occurs behind the head, so that nothing is found and nothing unlinked.
   */
  lemma RemovedIsFirstIff(keys: seq<nat>, headKey: nat, tailKey: nat)
    ensures Removed(keys, headKey, tailKey) == First(keys, headKey, 0) <==>
            (keys == [] || keys[0] == headKey || headKey == tailKey
             || (headKey !in keys[1..] && tailKey !in keys[1..]))
  {
    if keys != [] && keys[0] != headKey {
      FirstUnique(keys, headKey, 0, First(keys, headKey, 1));
      AbsentBehindHead(keys, headKey);
      AbsentBehindHead(keys, tailKey);
      RemovedIsFirst(keys, headKey);
    }
  }

  lemma AbsentBehindHead(keys: seq<nat>, key: nat)
    requires keys != []
    ensures key !in keys[1..] <==> First(keys, key, 1) == |keys|
  {
    var k := First(keys, key, 1);
    if k < |keys| {
      assert keys[1..][k - 1] == key;
    }
  }

  /** An element appended under a key not yet in the list is the one lookup finds. */
  lemma FoundAfterAppend(keys: seq<nat>, key: nat)
    ensures First(keys + [key], key, 0) == |keys| <==> key !in keys
  {
    var k := First(keys + [key], key, 0);
    if key !in keys {
      FirstUnique(keys + [key], key, 0, |keys|);
    } else {
      var i :| 0 <= i < |keys| && keys[i] == key;
      assert (keys + [key])[i] == key;
    }
  }

  /** Removing it again by two keys gets it back exactly if it is alone in the list or the keys coincide. */
  lemma RemovedAfterAppend(keys: seq<nat>, headKey: nat, tailKey: nat)
    requires headKey !in keys
    ensures Removed(keys + [headKey], headKey, tailKey) == |keys| <==> keys == [] || headKey == tailKey
  {
    var all := keys + [headKey];
    FoundAfterAppend(keys, headKey);
    RemovedIsFirstIff(all, headKey, tailKey);
    if keys != [] {
      assert all[1..][|keys| - 1] == headKey;
      assert all[0] == keys[0];
    }
  }

  /** Descriptor (1, 6) with files 5, 1 and 6 open: file 6 is asked for, file 1 is unlinked. */
  lemma RemovedExample()
    ensures First([5, 1, 6], 6, 0) == 2 && Removed([5, 1, 6], 6, 1) == 1
  {
    FirstUnique([5, 1, 6], 6, 0, 2);
    FirstUnique([5, 1, 6], 1, 1, 1);
  }

  // --- the list ---------------------------------------------------------------------------------

  class List<T> {
    var head: Cell?<T>
    ghost var cells: seq<Cell<T>>
    ghost var repr: set<object>  // the list itself and every cell it has held

    ghost predicate Valid()
      reads this, repr
      ensures Valid() ==> this in repr
    {
      && this in repr
      && (forall i :: 0 <= i < |cells| ==> cells[i] in repr)
      && (forall i, j :: 0 <= i < j < |cells| ==> cells[i] != cells[j])
      && head == CellAt(cells, 0)
      && (forall i {:trigger cells[i].next} :: 0 <= i < |cells| ==> cells[i].next == CellAt(cells, i + 1))
    }

    constructor ()
      ensures Valid() && cells == [] && repr == {this}
    {
      head, cells, repr := null, [], {this};
    }

    method Append(c: Cell<T>)
      requires Valid() && c !in repr && c.next == null
      modifies repr
      ensures Valid() && cells == old(cells) + [c] && repr == old(repr) + {c}
    {
      repr := repr + {c};
      if head == null {
        head := c;
        cells := [c];
        return;
      }
      var iter := head;
      ghost var k := 0;
      while iter.next != null
        invariant k < |cells| && iter == cells[k]
        decreases |cells| - k
      {
        assert cells[k].next == CellAt(cells, k + 1);
        iter, k := iter.next, k + 1;
      }
      assert cells[k].next == CellAt(cells, k + 1);
      iter.next := c;
      cells := cells + [c];
    }

    method Get(key: nat) returns (iter: Cell?<T>)
      requires Valid()
      ensures iter == CellAt(cells, First(Keys(cells), key, 0))
    {
      iter := head;
      ghost var k := 0;
      while iter != null && iter.key != key
        invariant k <= |cells| && iter == CellAt(cells, k)
        invariant forall i :: 0 <= i < k ==> Keys(cells)[i] != key
        decreases |cells| - k
      {
        assert cells[k].next == CellAt(cells, k + 1);
        iter, k := iter.next, k + 1;
      }
      FirstUnique(Keys(cells), key, 0, k);
    }

    method Remove(headKey: nat, tailKey: nat) returns (found: Cell?<T>)
      requires Valid()
      modifies repr
      ensures Valid() && repr == old(repr)
      ensures var k := Removed(Keys(old(cells)), headKey, tailKey);
              && found == CellAt(old(cells), k)
              && cells == if k < |old(cells)| then Without(old(cells), k) else old(cells)
    {
      hide First;
      var iter := head;
      if iter == null { return null; }
      if iter.key == headKey {
        assert cells[0].next == CellAt(cells, 1);
        head := head.next;
        cells := Without(cells, 0);
        return iter;
      }
      ghost var k := 0;
      while iter.next != null && iter.next.key != tailKey
        invariant k < |cells| && iter == cells[k]
        invariant forall i :: 1 <= i <= k ==> Keys(cells)[i] != tailKey
        decreases |cells| - k
      {
        assert cells[k].next == CellAt(cells, k + 1);
        iter, k := iter.next, k + 1;
      }
      assert cells[k].next == CellAt(cells, k + 1);
      FirstUnique(Keys(cells), tailKey, 1, k + 1);
      if iter.next != null {
        found := iter.next;
        assert cells[k + 1].next == CellAt(cells, k + 2);
        iter.next := iter.next.next;
        cells := Without(cells, k + 1);
      } else {
        found := null;
      }
    }
  }
}
