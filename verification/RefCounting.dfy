/** Reference-counted frame buffers and the smart pointers that hold them. */
module RefCounting {

  datatype Geometry = Geometry(width: int, height: int, strideY: int, strideU: int, strideV: int)

  /** A reference-counted buffer; deleted records that its destructor has run. */
  class Buffer {
    const geometry: Geometry
    var refCount: int
    var deleted: bool

    constructor (geometry: Geometry)
      ensures this.geometry == geometry && refCount == 0 && !deleted
    {
      this.geometry := geometry;
      refCount, deleted := 0, false;
    }

    method AddRef()
      modifies this
      ensures refCount == old(refCount) + 1 && deleted == old(deleted)
    {
      refCount := refCount + 1;
    }

    method Release()
      modifies this
      ensures refCount == old(refCount) - 1 && (deleted <==> old(deleted) || refCount == 0)
    {
      refCount := refCount - 1;
      if refCount == 0 {
        deleted := true;
      }
    }

    predicate HasOneRef()
      reads this
    {
      refCount == 1
    }
  }

  /** scoped_refptr. */
  class Handle {
    var ptr: Buffer?

    constructor (p: Buffer?)
      ensures ptr == p
    {
      ptr := p;
    }
  }

  /** Which handle points where. */
  type Pointers = map<Handle, Buffer?>

  /** How many handles hold b. */
  ghost function Count(at: Pointers, b: Buffer): nat { |Holders(at, b)| }

  ghost function Holders(at: Pointers, b: Buffer): set<Handle> { set h | h in at && at[h] == b }

  lemma CountAdd(at: Pointers, h: Handle, p: Buffer?, b: Buffer)
    requires h !in at
    ensures Count(at[h := p], b) == Count(at, b) + if p == b then 1 else 0
  {
    assert Holders(at[h := p], b) == Holders(at, b) + if p == b then {h} else {};
  }

  lemma CountRemove(at: Pointers, h: Handle, b: Buffer)
    requires h in at
    ensures Count(at - {h}, b) == Count(at, b) - if at[h] == b then 1 else 0
  {
    assert at == (at - {h})[h := at[h]];
    CountAdd(at - {h}, h, at[h], b);
  }

  lemma CountUpdate(at: Pointers, h: Handle, p: Buffer?, b: Buffer)
    requires h in at
    ensures Count(at[h := p], b) == Count(at, b) - (if at[h] == b then 1 else 0) + (if p == b then 1 else 0)
  {
    CountRemove(at, h, b);
    CountAdd(at - {h}, h, p, b);
    assert (at - {h})[h := p] == at[h := p];
  }

  lemma CountMove(at: Pointers, r: Handle, h: Handle, b: Buffer)
    requires r in at && h !in at
    ensures Count(at[r := null][h := at[r]], b) == Count(at, b)
  {
    CountUpdate(at, r, null, b);
    CountAdd(at[r := null], h, at[r], b);
  }

  lemma CountSwap(at: Pointers, g: Handle, h: Handle, b: Buffer)
    requires g in at && h in at
    ensures Count(at[g := at[h]][h := at[g]], b) == Count(at, b)
  {
    CountUpdate(at, g, at[h], b);
    CountUpdate(at[g := at[h]], h, at[g], b);
  }

  lemma TemporaryGone(at: Pointers, temp: Handle, p: Buffer?, q: Buffer?, h: Handle)
    requires temp !in at && h in at
    ensures at[temp := p][temp := q][h := p] - {temp} == at[h := p]
  {
  }

  /** All handles and buffers of a program. */
  class World {
    ghost var at: Pointers
    ghost var buffers: set<Buffer>

    /** Every count is the number of handles, and a buffer is deleted exactly when nothing holds it. */
    ghost predicate Valid()
      reads this, at.Keys, buffers
    {
      && (forall h :: h in at ==> h.ptr == at[h] && (at[h] != null ==> at[h] in buffers))
      && (forall b :: b in buffers ==> b.refCount == Count(at, b) && (b.deleted <==> b.refCount == 0))
    }

    ghost predicate Live(b: Buffer)
      reads this, buffers
    {
      b in buffers && !b.deleted
    }

    constructor ()
      ensures Valid() && at == map[] && buffers == {}
    {
      at, buffers := map[], {};
    }

    /** A handle that holds a buffer keeps it live. */
    lemma HeldIsLive(h: Handle)
      requires Valid() && h in at && h.ptr != null
      ensures Live(h.ptr) && h.ptr.refCount >= 1
    {
      assert h in Holders(at, h.ptr);
    }

    /** Construction from a raw pointer, and copy construction. */
    method Make(p: Buffer?) returns (h: Handle)
      requires Valid() && (p != null ==> Live(p))
      modifies this`at, p
      ensures Valid() && fresh(h) && h.ptr == p && at == old(at)[h := p]
    {
      h := new Handle(p);
      if p != null {
        p.AddRef();
      }
      forall b | b in buffers {
        CountAdd(at, h, p, b);
      }
      at := at[h := p];
    }

    /** A new buffer with its first handle. */
    method MakeNew(geometry: Geometry) returns (h: Handle)
      requires Valid()
      modifies this
      ensures Valid() && fresh(h) && h.ptr != null && fresh(h.ptr) && h.ptr.geometry == geometry
      ensures at == old(at)[h := h.ptr] && buffers == old(buffers) + {h.ptr}
    {
      var b := new Buffer(geometry);
      h := new Handle(b);
      b.AddRef();
      assert Holders(at, b) == {};
      forall c | c in buffers + {b} {
        CountAdd(at, h, b, c);
      }
      at := at[h := b];
      buffers := buffers + {b};
    }

    /** The end of a handle. */
    method Destroy(h: Handle)
      requires Valid() && h in at
      modifies this`at, h.ptr
      ensures Valid() && at == old(at) - {h}
    {
      if h.ptr != null {
        HeldIsLive(h);
        h.ptr.Release();
      }
      forall b | b in buffers {
        CountRemove(at, h, b);
      }
      at := at - {h};
    }

    /** Assignment of a pointer or of another handle's pointer, its own included. */
    method Assign(h: Handle, p: Buffer?)
      requires Valid() && h in at && (p != null ==> Live(p))
      modifies this`at, h, h.ptr, p
      ensures Valid() && h.ptr == p && at == old(at)[h := p]
    {
      if h.ptr != null {
        HeldIsLive(h);
      }
      if p != null {
        p.AddRef();
      }
      if h.ptr != null {
        h.ptr.Release();
      }
      h.ptr := p;
      forall b | b in buffers {
        CountUpdate(at, h, p, b);
      }
      at := at[h := p];
    }

    /** Move construction: the new handle takes over, and the old one is empty. */
    method MakeByMove(r: Handle) returns (h: Handle)
      requires Valid() && r in at
      modifies this`at, r
      ensures Valid() && fresh(h) && h.ptr == old(r.ptr) && r.ptr == null
      ensures at == old(at)[r := null][h := old(r.ptr)]
    {
      h := new Handle(r.ptr);
      r.ptr := null;
      forall b | b in buffers {
        CountMove(at, r, h, b);
      }
      at := at[r := null][h := at[r]];
    }

    method Swap(g: Handle, h: Handle)
      requires Valid() && g in at && h in at
      modifies this`at, g, h
      ensures Valid() && g.ptr == old(h.ptr) && h.ptr == old(g.ptr)
      ensures at == old(at)[g := old(h.ptr)][h := old(g.ptr)]
    {
      var p := g.ptr;
      g.ptr := h.ptr;
      h.ptr := p;
      forall b | b in buffers {
        CountSwap(at, g, h, b);
      }
      at := at[g := at[h]][h := at[g]];
    }

    /** Move assignment, to itself included: what h held is given up, and r's buffer moves to h. */
    method AssignByMove(h: Handle, r: Handle)
      requires Valid() && h in at && r in at
      modifies this`at, h, r, h.ptr
      ensures Valid() && h.ptr == old(r.ptr) && (r != h ==> r.ptr == null)
      ensures at == old(at)[r := null][h := old(r.ptr)]
    {
      ghost var before, moved := at, at[r := null];
      var temp := MakeByMove(r);
      Swap(temp, h);
      Destroy(temp);
      TemporaryGone(moved, temp, before[r], moved[h], h);
    }
  }
}
