/** The store of one message: a file that takes writes up to a size limit. */
module Store {
  type Octets = string

  /** The value of a store: what the file holds, its limit, and the sticky size error. */
  datatype StoreState = StoreState(contents: Octets, size: nat, maxSize: nat, sizeError: bool)

  function OpenStore(maxSize: nat): StoreState {
    StoreState("", 0, maxSize, false)
  }

  /** A write is kept whole or dropped whole, and after a dropped one so are all the others. */
  function WriteTo(s: StoreState, octets: Octets): StoreState {
    if !s.sizeError && s.size + |octets| <= s.maxSize
    then s.(contents := s.contents + octets, size := s.size + |octets|)
    else s.(sizeError := true)
  }

  function WriteAllTo(s: StoreState, pieces: seq<Octets>): StoreState
    decreases |pieces|
  {
    if pieces == [] then s else WriteAllTo(WriteTo(s, pieces[0]), pieces[1..])
  }

  function Concat(pieces: seq<Octets>): Octets {
    if pieces == [] then "" else pieces[0] + Concat(pieces[1..])
  }

  ghost predicate Sized(s: StoreState) {
    s.size == |s.contents| <= s.maxSize
  }

  /** The limit decides on the total alone, however the octets are cut into writes: all of them are
      kept in order, or the store is in error; what it holds never exceeds the limit. */
  lemma {:induction false} WriteAllResult(s: StoreState, pieces: seq<Octets>)
    requires Sized(s)
    ensures var t := WriteAllTo(s, pieces);
            && Sized(t) && t.maxSize == s.maxSize && s.contents <= t.contents
            && (!t.sizeError <==> !s.sizeError && s.size + |Concat(pieces)| <= s.maxSize)
            && (!t.sizeError ==> t.contents == s.contents + Concat(pieces))
    decreases |pieces|
  {
    if pieces == [] {
      assert s.contents + "" == s.contents;
    } else {
      var t := WriteTo(s, pieces[0]);
      WriteAllResult(t, pieces[1..]);
      assert s.contents + pieces[0] + Concat(pieces[1..]) == s.contents + Concat(pieces);
    }
  }

  lemma ConcatOne(piece: Octets)
    ensures Concat([piece]) == piece
  {
    assert [piece][1..] == [];
  }

  class MessageStore {
    var contents: Octets
    var size: nat
    var maxSize: nat
    var sizeError: bool

    function View(): StoreState
      reads this
    {
      StoreState(contents, size, maxSize, sizeError)
    }

    constructor ()
      ensures contents == "" && size == 0 && maxSize == 0 && !sizeError
    {
      contents, size, maxSize, sizeError := "", 0, 0, false;
    }

    /** Opens an empty file.  A new store has no size error; opening does not clear one. */
    method Open(maxSize: nat)
      modifies this
      ensures View() == OpenStore(maxSize).(sizeError := old(sizeError))
    {
      contents := "";
      this.maxSize := maxSize;
      size := 0;
    }

    method Write(s: Octets)
      modifies this
      ensures View() == WriteTo(old(View()), s)
    {
      if !sizeError && size + |s| <= maxSize {
        size := size + |s|;
        contents := contents + s;
      } else {
        sizeError := true;
      }
    }
  }
}
