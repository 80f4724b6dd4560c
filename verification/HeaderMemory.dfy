/**
  The bytes of the heap and the region headers stored in them (struct
  RegionHeader of kernel/malloc.h): `type` at offset 0, `magic` at 1, `size` at 4
  and `link` at 8, little endian, 12 bytes in all.  Headers may start at any
  address: kmalloc does not align sizes.
 */
module HeaderMemory {
  import opened Bytes
  import opened HeapLayout

  const MAGIC: byte := 0x87

  const REGION_FREE := 0
  const REGION_ALLOC := 1

  datatype Header = Header(kind: int, size: int, link: int)

  function Word(b0: byte, b1: byte, b2: byte, b3: byte): (v: int)
    ensures 0 <= v < WORD
  {
    (b0 as int) + 0x100 * (b1 as int) + 0x1_0000 * (b2 as int) + 0x100_0000 * (b3 as int)
  }

  lemma WordRoundTrip(v: int)
    requires 0 <= v < WORD
    ensures Word(v % 0x100, v / 0x100 % 0x100, v / 0x1_0000 % 0x100, v / 0x100_0000) == v
  {
    assert v / 0x100 == v / 0x1_0000 * 0x100 + v / 0x100 % 0x100;
    assert v / 0x1_0000 == v / 0x100_0000 * 0x100 + v / 0x1_0000 % 0x100;
  }

  function GetWord(m: seq<byte>, i: int): (v: int)
    requires 0 <= i && i + 4 <= |m|
    ensures 0 <= v < WORD
  {
    Word(m[i], m[i + 1], m[i + 2], m[i + 3])
  }

  function Digits(v: int): (d: seq<byte>)
    requires 0 <= v < WORD
    ensures |d| == 4 && Word(d[0], d[1], d[2], d[3]) == v
  {
    WordRoundTrip(v);
    [v % 0x100, v / 0x100 % 0x100, v / 0x1_0000 % 0x100, v / 0x100_0000]
  }

  function Overwrite(m: seq<byte>, i: int, d: seq<byte>): (r: seq<byte>)
    requires 0 <= i && i + |d| <= |m|
    ensures |r| == |m|
    ensures forall j :: 0 <= j < |m| ==> r[j] == if i <= j < i + |d| then d[j - i] else m[j]
  {
    m[..i] + d + m[i + |d|..]
  }

  function PutWord(m: seq<byte>, i: int, v: int): (r: seq<byte>)
    requires 0 <= i && i + 4 <= |m|
    requires 0 <= v < WORD
    ensures |r| == |m|
    ensures forall j :: 0 <= j < |m| && !(i <= j < i + 4) ==> r[j] == m[j]
    ensures GetWord(r, i) == v
  {
    Overwrite(m, i, Digits(v))
  }

  // The heap whose first byte has address `base` holds header h at address a.
  ghost predicate Encodes(m: seq<byte>, base: int, a: int, h: Header) {
    && base <= a && a + HDR <= base + |m|
    && m[a - base] == h.kind
    && GetWord(m, a - base + 4) == h.size
    && GetWord(m, a - base + 8) == h.link
  }

  ghost predicate Apart(a: int, b: int) { a + HDR <= b || b + HDR <= a }

  // Byte x lies in none of the header slots in `stores`.
  ghost predicate Untouched(stores: set<int>, x: int) {
    forall a :: a in stores ==> !(a <= x < a + HDR)
  }

  // m' differs from m inside the header slot at a only.
  ghost predicate OnlySlot(m: seq<byte>, m': seq<byte>, base: int, a: int) {
    && |m'| == |m|
    && forall i :: 0 <= i < |m| && !(a <= base + i < a + HDR) ==> m'[i] == m[i]
  }

  lemma OtherSlotsKept(m: seq<byte>, m': seq<byte>, base: int, a: int, b: int, h: Header)
    requires OnlySlot(m, m', base, a) && Apart(a, b) && Encodes(m, base, b, h)
    ensures Encodes(m', base, b, h)
  {
    var i := b - base;
    assert forall k :: i <= k < i + HDR ==> m'[k] == m[k];
  }

  lemma PokeKeeps(m: seq<byte>, base: int, x: int, v: byte, a: int, h: Header)
    requires base <= x < base + |m| && Encodes(m, base, a, h) && !(a <= x < a + HDR)
    ensures Encodes(m[x - base := v], base, a, h)
  {
    var i, m' := a - base, m[x - base := v];
    assert forall k :: i <= k < i + HDR ==> m'[k] == m[k];
  }

  // A header on its bytes, as the struct lays it out.
  lemma HeaderBytes(m: seq<byte>, base: int, a: int, h: Header)
    requires Encodes(m, base, a, h)
    ensures var i := a - base;
            && 0 <= i && i + 12 <= |m| && m[i] == h.kind
            && (m[i + 4] as int) + 256 * (m[i + 5] as int) + 65536 * (m[i + 6] as int) + 16777216 * (m[i + 7] as int) == h.size
            && (m[i + 8] as int) + 256 * (m[i + 9] as int) + 65536 * (m[i + 10] as int) + 16777216 * (m[i + 11] as int) == h.link
  {}

  class Memory {
    const base: int
    var bytes: seq<byte>

    // The headers currently in use, by address.
    ghost var headers: map<int, Header>
    // Where headers have been stored since `Mark`, and the bytes at that time.
    ghost var stores: set<int>
    ghost var marked: seq<byte>

    // The quantifiers are triggered by Encodes, Apart and Untouched only, so
    // that code which reasons about `headers` and `stores` never decodes bytes.
    ghost predicate Valid()
      reads this
    {
      && 0 < base && base + |bytes| < WORD
      && Decoded(bytes, base, headers)
      && (forall a, b {:trigger Apart(a, b)} :: a in headers && b in headers && a != b ==> Apart(a, b))
      && |marked| == |bytes|
      && Recorded(marked, bytes, base, stores)
    }

    constructor (base: int, size: nat)
      requires 0 < base && base + size < WORD
      ensures Valid() && this.base == base && |bytes| == size
      ensures headers == map[] && stores == {} && marked == bytes
    {
      this.base := base;
      bytes := seq(size, _ => 0);
      headers := map[];
      stores := {};
      marked := seq(size, _ => 0);
    }

    // Start a new record of stores.
    ghost method Mark()
      requires Valid()
      modifies this`stores, this`marked
      ensures Valid() && stores == {} && marked == bytes
    {
      stores := {};
      marked := bytes;
    }

    // The header at a is no longer in use; its bytes stay where they are.
    ghost method Retire(a: int)
      requires Valid()
      modifies this`headers
      ensures Valid() && headers == old(headers) - {a}
    {
      headers := headers - {a};
      forall b | b in headers ensures Encodes(bytes, base, b, headers[b]) {
        assert Encodes(bytes, base, b, old(headers)[b]);
      }
    }

    method Kind(a: int) returns (v: int)
      requires Valid() && a in headers
      ensures v == headers[a].kind
    {
      assert Encodes(bytes, base, a, headers[a]);
      v := bytes[a - base];
    }

    method Size(a: int) returns (v: int)
      requires Valid() && a in headers
      ensures v == headers[a].size && 0 <= v < WORD
    {
      assert Encodes(bytes, base, a, headers[a]);
      v := GetWord(bytes, a - base + 4);
    }

    method Link(a: int) returns (v: int)
      requires Valid() && a in headers
      ensures v == headers[a].link && 0 <= v < WORD
    {
      assert Encodes(bytes, base, a, headers[a]);
      v := GetWord(bytes, a - base + 8);
    }

    method SetKind(a: int, v: byte)
      requires Valid() && a in headers
      modifies this
      ensures Valid() && |bytes| == old(|bytes|)
      ensures headers == old(headers)[a := old(headers)[a].(kind := v)]
      ensures stores == old(stores) + {a} && marked == old(marked)
    {
      assert Encodes(bytes, base, a, headers[a]);
      ghost var m := bytes;
      bytes := bytes[a - base := v];
      headers := headers[a := headers[a].(kind := v)];
      stores := stores + {a};
      StoreKeeps(m, bytes, base, a, old(headers), headers, old(marked), old(stores));
    }

    method SetSize(a: int, v: int)
      requires Valid() && a in headers && 0 <= v < WORD
      modifies this
      ensures Valid() && |bytes| == old(|bytes|)
      ensures headers == old(headers)[a := old(headers)[a].(size := v)]
      ensures stores == old(stores) + {a} && marked == old(marked)
    {
      assert Encodes(bytes, base, a, headers[a]);
      ghost var m := bytes;
      bytes := PutWord(bytes, a - base + 4, v);
      headers := headers[a := headers[a].(size := v)];
      stores := stores + {a};
      StoreKeeps(m, bytes, base, a, old(headers), headers, old(marked), old(stores));
    }

    method SetLink(a: int, v: int)
      requires Valid() && a in headers && 0 <= v < WORD
      modifies this
      ensures Valid() && |bytes| == old(|bytes|)
      ensures headers == old(headers)[a := old(headers)[a].(link := v)]
      ensures stores == old(stores) + {a} && marked == old(marked)
    {
      assert Encodes(bytes, base, a, headers[a]);
      ghost var m := bytes;
      bytes := PutWord(bytes, a - base + 8, v);
      headers := headers[a := headers[a].(link := v)];
      stores := stores + {a};
      StoreKeeps(m, bytes, base, a, old(headers), headers, old(marked), old(stores));
    }

    // CREATE_HEADER: a header at an address where none was in use.
    method Create(a: int, kind: byte, size: int, link: int)
      requires Valid() && base <= a && a + HDR <= base + |bytes|
      requires forall b :: b in headers ==> Apart(a, b)
      requires 0 <= size < WORD && 0 <= link < WORD
      modifies this
      ensures Valid() && |bytes| == old(|bytes|)
      ensures headers == old(headers)[a := Header(kind, size, link)] && bytes[a - base + 1] == 0x87
      ensures stores == old(stores) + {a} && marked == old(marked)
    {
      ghost var m := bytes;
      var i := a - base;
      bytes := PutWord(PutWord(bytes[i := kind][i + 1 := MAGIC], i + 4, size), i + 8, link);
      headers := headers[a := Header(kind, size, link)];
      stores := stores + {a};
      StoreKeeps(m, bytes, base, a, old(headers), headers, old(marked), old(stores));
    }

    // A caller's store: one byte outside every header.
    method Poke(x: int, v: byte)
      requires Valid() && base <= x < base + |bytes|
      requires forall a :: a in headers ==> !(a <= x < a + HDR)
      modifies this
      ensures Valid() && headers == old(headers) && bytes == old(bytes)[x - base := v]
    {
      ghost var m := bytes;
      bytes := bytes[x - base := v];
      stores, marked := {}, bytes;
      forall a | a in headers ensures Encodes(bytes, base, a, headers[a]) {
        assert Encodes(m, base, a, headers[a]);
        PokeKeeps(m, base, x, v, a, headers[a]);
      }
    }

    // Headers lie inside the heap, so their addresses are 32-bit words.
    lemma InRange(a: int)
      requires Valid() && a in headers
      ensures base <= a && a + HDR <= base + |bytes|
    {
      assert Encodes(bytes, base, a, headers[a]);
    }

    // A byte outside every slot stored to has the value it had at `Mark`.
    lemma ByteKept(x: int)
      requires Valid() && base <= x < base + |bytes| && Untouched(stores, x)
      ensures bytes[x - base] == marked[x - base]
    {}
  }

  ghost predicate Decoded(m: seq<byte>, base: int, hs: map<int, Header>) {
    forall a {:trigger Encodes(m, base, a, hs[a])} :: a in hs ==> Encodes(m, base, a, hs[a])
  }

  ghost predicate Recorded(marked: seq<byte>, m: seq<byte>, base: int, stores: set<int>)
    requires |marked| == |m|
  {
    forall x {:trigger Untouched(stores, x)} ::
      base <= x < base + |m| && Untouched(stores, x) ==> m[x - base] == marked[x - base]
  }

  // One header store keeps every other header and extends the record by its slot.
  lemma StoreKeeps(m: seq<byte>, m': seq<byte>, base: int, a: int,
                   hs: map<int, Header>, hs': map<int, Header>, marked: seq<byte>, stores: set<int>)
    requires OnlySlot(m, m', base, a) && |marked| == |m|
    requires Decoded(m, base, hs) && Recorded(marked, m, base, stores)
    requires a in hs' && hs' == hs[a := hs'[a]] && Encodes(m', base, a, hs'[a])
    requires forall b :: b in hs && b != a ==> Apart(a, b)
    ensures Decoded(m', base, hs') && Recorded(marked, m', base, stores + {a})
  {
    forall b | b in hs' ensures Encodes(m', base, b, hs'[b]) {
      if b != a {
        assert Encodes(m, base, b, hs[b]);
        OtherSlotsKept(m, m', base, a, b, hs[b]);
      }
    }
    forall x | base <= x < base + |m'| && Untouched(stores + {a}, x) ensures m'[x - base] == marked[x - base] {
      assert a in stores + {a};
      assert forall b :: b in stores ==> b in stores + {a};
      assert Untouched(stores, x);
    }
  }
}
