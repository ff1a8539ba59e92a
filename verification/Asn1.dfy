/** asn1.c: cursors that walk DER objects, and builders that put them together from the end. */
module Asn1 {
  import opened Arith

  type Byte = x: nat | x < 256 witness 0

  const UINT := 0x1_0000_0000
  const INT_LIMIT := 0x8000_0000
  /** One more than the largest size_t. */
  const SIZE := 0x1_0000_0000_0000_0000

  /** ASN1_ANY. */
  const ANY := -1

  const EMPTY := -1
  const NO_ENTRY := -2
  const MISMATCH := -3
  const LEN_LEN := -4
  const LEN := -5
  const NEGATIVE := -6

  //////////////////////////////////////////////////////////////////////////////
  // Lengths, in the form of section 8.1.3 of X.690
  //////////////////////////////////////////////////////////////////////////////

  /** The bytes of a number, the highest first and without leading zeros. */
  function BigEndian(n: nat): (r: seq<Byte>) {
    if n == 0 then [] else BigEndian(n / 256) + [n % 256]
  }

  /** An identifier byte followed by the length. */
  function Header(kind: Byte, n: nat): (r: seq<Byte>)
    requires |BigEndian(n)| < 128
  {
    if n < 0x80 then [kind, n] else [kind, 0x80 + |BigEndian(n)|] + BigEndian(n)
  }

  /** The accumulation loop of asn1_start, in an unsigned int. */
  function Accumulate(acc: nat, bytes: seq<Byte>): (r: nat)
    requires acc < UINT
    ensures r < UINT
    decreases |bytes|
  {
    if bytes == [] then acc else Accumulate((acc * 256 + bytes[0]) % UINT, bytes[1..])
  }

  lemma {:induction false} AccumulateAppend(acc: nat, bytes: seq<Byte>, b: Byte)
    requires acc < UINT
    ensures Accumulate(acc, bytes + [b]) == (Accumulate(acc, bytes) * 256 + b) % UINT
    decreases |bytes|
  {
    if bytes == [] {
      assert (bytes + [b])[1..] == [];
    } else {
      assert (bytes + [b])[1..] == bytes[1..] + [b];
      AccumulateAppend((acc * 256 + bytes[0]) % UINT, bytes[1..], b);
    }
  }

  /** Reading back the bytes of a length gives the length. */
  lemma {:induction false} AccumulateBigEndian(n: nat)
    requires n < UINT
    ensures Accumulate(0, BigEndian(n)) == n
  {
    if n > 0 {
      AccumulateBigEndian(n / 256);
      AccumulateAppend(0, BigEndian(n / 256), n % 256);
      SmallModulo(n, UINT);
    }
  }

  /** A 64-bit length takes at most eight bytes. */
  lemma {:induction false} BigEndianLength(n: nat, k: nat)
    requires n < Pow(256, k)
    ensures |BigEndian(n)| <= k
  {
    if n > 0 {
      assert k > 0;
      assert Pow(256, k) == 256 * Pow(256, k - 1);
      BigEndianLength(n / 256, k - 1);
    }
  }

  //////////////////////////////////////////////////////////////////////////////
  // Reading a header
  //////////////////////////////////////////////////////////////////////////////

  /** The result of asn1_start: how many bytes it consumed, and the length or the error it returned. */
  datatype Started = Started(used: nat, ret: int)

  /** There is no room for an object, or one of another type. */
  predicate NoObject(view: seq<Byte>, kind: int) {
    |view| < 2 || (kind != ANY && kind != view[0])
  }

  function Start(view: seq<Byte>, kind: int, extra: nat): (r: Started)
    ensures r.used <= |view|
    ensures r.ret >= 0 ==> 2 <= r.used && r.used + r.ret <= |view| + extra && r.ret < INT_LIMIT
    ensures r.used == 0 <==> NoObject(view, kind)
  {
    if |view| < 2 then Started(0, EMPTY)
    else if kind != ANY && kind != view[0] then Started(0, MISMATCH)
    else
      var long := view[1] >= 0x80;
      var at := if long then 2 else 1;
      var lenLen := if long then view[1] - 0x80 else 1;
      if |view| - at < lenLen then Started(at, LEN_LEN)
      else
        var used := at + lenLen;
        var len := Accumulate(0, view[at..used]);
        if |view| - used + extra < len then Started(used, LEN)
        else Started(used, if len < INT_LIMIT then len else NEGATIVE)
  }

  /** What asn1_header writes, asn1_start reads, provided that the content is there and shorter than 2^31. */
  lemma StartHeader(kind: Byte, n: nat, rest: seq<Byte>, expected: int)
    requires n <= |rest| && n < INT_LIMIT && (expected == ANY || expected == kind)
    ensures |BigEndian(n)| <= 4
    ensures Start(Header(kind, n) + rest, expected, 0) == Started(|Header(kind, n)|, n)
  {
    assert n < Pow(256, 4) by { PowerOf256(); }
    BigEndianLength(n, 4);
    var view := Header(kind, n) + rest;
    if n < 0x80 {
      assert view[1..2] == [n];
      assert [n][1..] == [];
      SmallModulo(n, UINT);
      assert Accumulate(0, [n]) == Accumulate((0 * 256 + n) % UINT, []);
    } else {
      var be := BigEndian(n);
      assert view[2..2 + |be|] == be;
      AccumulateBigEndian(n);
    }
  }

  lemma PowerOf256()
    ensures Pow(256, 4) == UINT
  {
    assert Pow(256, 1) == 256;
    assert Pow(256, 2) == 65536;
    assert Pow(256, 3) == 16777216;
  }

  lemma SizeLength(n: nat)
    requires n < SIZE
    ensures |BigEndian(n)| <= 8
  {
    hide Pow;
    PowerOf256();
    PowAdd(256, 4, 4);
    BigEndianLength(n, 8);
  }

  /** A length comes back exactly when it is below 2^31: asn1_start returns it as an int. */
  lemma HeaderExactly(kind: Byte, n: nat, rest: seq<Byte>)
    requires n <= |rest| && n < SIZE
    ensures |BigEndian(n)| <= 8
    ensures Start(Header(kind, n) + rest, kind, 0) == Started(|Header(kind, n)|, n) <==> n < INT_LIMIT
  {
    SizeLength(n);
    hide Header, BigEndian;
    if n < INT_LIMIT {
      StartHeader(kind, n, rest, kind);
    }
  }

  //////////////////////////////////////////////////////////////////////////////
  // Walking
  //////////////////////////////////////////////////////////////////////////////

  datatype Item = Item(kind: Byte, body: seq<Byte>)

  function Encode(i: Item): seq<Byte>
    requires |BigEndian(|i.body|)| < 128
  {
    Header(i.kind, |i.body|) + i.body
  }

  /** Items small enough for asn1_start to return their length. */
  ghost predicate Sized(items: seq<Item>) {
    forall k :: 0 <= k < |items| ==> |items[k].body| < INT_LIMIT
  }

  lemma SizedHeader(n: nat)
    requires n < INT_LIMIT
    ensures |BigEndian(n)| <= 4
  {
    PowerOf256();
    BigEndianLength(n, 4);
  }

  function EncodeAll(items: seq<Item>): seq<Byte>
    requires Sized(items)
  {
    if items == [] then []
    else
      SizedHeader(|items[0].body|);
      Encode(items[0]) + EncodeAll(items[1..])
  }

  /** The objects one after the other, as entering a copy of the cursor and skipping finds them. */
  function Walk(view: seq<Byte>): (r: seq<Item>)
    decreases |view|
  {
    var h := Start(view, ANY, 0);
    if h.ret < 0 then []
    else [Item(view[0], view[h.used..h.used + h.ret])] + Walk(view[h.used + h.ret..])
  }

  /** Walking a sequence of encoded items finds exactly those items, in order. */
  lemma {:induction false} WalkEncoded(items: seq<Item>)
    requires Sized(items)
    ensures Walk(EncodeAll(items)) == items
  {
    if items != [] {
      var i, rest := items[0], EncodeAll(items[1..]);
      SizedHeader(|i.body|);
      WalkFirst(i, rest);
      WalkEncoded(items[1..]);
    }
  }

  lemma WalkFirst(i: Item, rest: seq<Byte>)
    requires |i.body| < INT_LIMIT && |BigEndian(|i.body|)| <= 4
    ensures Walk(Encode(i) + rest) == [i] + Walk(rest)
  {
    var h := Header(i.kind, |i.body|);
    assert |h| >= 2 && h[0] == i.kind;
    StartHeader(i.kind, |i.body|, i.body + rest, ANY);
    hide Start, Header, BigEndian;
    var view := Encode(i) + rest;
    assert view == h + (i.body + rest);
    assert view[|h|..|h| + |i.body|] == i.body;
    assert view[|h| + |i.body|..] == rest;
  }

  //////////////////////////////////////////////////////////////////////////////
  // Cursors
  //////////////////////////////////////////////////////////////////////////////

  lemma SubView(bytes: seq<Byte>, data: nat, len: nat, at: nat, n: nat)
    requires data + len <= |bytes| && at + n <= len
    ensures bytes[data..data + len][at..at + n] == bytes[data + at..data + at + n]
  {
    var v := bytes[data..data + len];
    var a, b := v[at..at + n], bytes[data + at..data + at + n];
    forall k | 0 <= k < n
      ensures a[k] == b[k]
    {
      assert v[at + k] == bytes[data + at + k];
    }
  }

  class Cursor {
    const bytes: seq<Byte>
    var data: nat
    var len: nat

    constructor (bytes: seq<Byte>, data: nat, len: nat)
      requires data + len <= |bytes|
      ensures Valid() && this.bytes == bytes && this.data == data && this.len == len
    {
      this.bytes, this.data, this.len := bytes, data, len;
    }

    ghost predicate Valid()
      reads this
    {
      data + len <= |bytes|
    }

    /** What the cursor covers. */
    function View(): seq<Byte>
      requires Valid()
      reads this
    {
      bytes[data..data + len]
    }

    /** The length loop of asn1_start. */
    method ReadLength(lenLen: nat) returns (n: nat)
      requires Valid() && lenLen <= len
      modifies this
      ensures Valid() && data == old(data) + lenLen && len == old(len) - lenLen
      ensures n == Accumulate(0, bytes[old(data)..old(data) + lenLen])
    {
      ghost var field := bytes[data..data + lenLen];
      n := 0;
      for i := 0 to lenLen
        invariant Valid() && n < UINT && data == old(data) + i && len == old(len) - i
        invariant Accumulate(0, field) == Accumulate(n, field[i..])
      {
        assert field[i..][0] == bytes[data] && field[i..][1..] == field[i + 1..];
        n := (n * 256 + bytes[data]) % UINT;
        data, len := data + 1, len - 1;
      }
    }

    /** asn1_start: on success the cursor is at the content, whose length is returned; on some errors it has
        moved as well. */
    method StartObject(kind: int, extra: nat) returns (ret: int)
      requires Valid()
      modifies this
      ensures Valid()
      ensures var s := Start(old(View()), kind, extra);
        ret == s.ret && data == old(data) + s.used && len == old(len) - s.used
    {
      ghost var view := View();
      if len < 2 {
        return EMPTY;
      }
      if kind != ANY && kind != bytes[data] {
        return MISMATCH;
      }
      data, len := data + 1, len - 1;
      var lenLen: nat := bytes[data];
      if lenLen >= 0x80 {
        lenLen := lenLen - 0x80;
        data, len := data + 1, len - 1;
      } else {
        lenLen := 1;
      }
      if len < lenLen {
        return LEN_LEN;
      }
      SubView(bytes, old(data), old(len), data - old(data), lenLen);
      var n := ReadLength(lenLen);
      if len + extra < n {
        return LEN;
      }
      return if n < INT_LIMIT then n else NEGATIVE;
    }

    /** asn1_enter: the cursor becomes the content of the object, or empty. */
    method Enter(kind: int) returns (rc: int)
      requires Valid()
      modifies this
      ensures Valid() && old(data) <= data && data + len <= old(data + len)
      ensures var s := Start(old(View()), kind, 0);
        if s.ret < 0 then rc == s.ret && len == 0
        else rc == 0 && View() == old(View())[s.used..s.used + s.ret]
    {
      ghost var view := View();
      var n := StartObject(kind, 0);
      if n < 0 {
        len := 0;
        return n;
      }
      len := n;
      SubView(bytes, old(data), old(len), data - old(data), n);
      return 0;
    }

    /** asn1_skip_if_exists: the cursor moves to the next object. It has moved even when this is an error,
        unless there was no object of that type to begin with. */
    method SkipIfExists(kind: int) returns (rc: int)
      requires Valid()
      modifies this
      ensures Valid() && old(data) <= data && data + len == old(data + len)
      ensures var s := Start(old(View()), kind, 0);
        if s.ret < 0 then rc == s.ret && data == old(data) + s.used
        else View() == old(View())[s.used + s.ret..] && rc == if len == 0 then NO_ENTRY else 0
      ensures rc == 0 ==> 0 < len < old(len)
      ensures rc != 0 ==> (data == old(data) <==> NoObject(old(View()), kind))
    {
      var n := StartObject(kind, 0);
      if n < 0 {
        return n;
      }
      data := data + n;
      len := len - n;
      SubView(bytes, old(data), old(len), data - old(data), len);
      if len == 0 {
        return NO_ENTRY;
      }
      return 0;
    }

    /** asn1_skip: as above, but on any error the cursor becomes empty. */
    method Skip(kind: int) returns (rc: int)
      requires Valid()
      modifies this
      ensures Valid() && old(data) <= data && data + len <= old(data + len)
      ensures var s := Start(old(View()), kind, 0);
        if s.ret < 0 then rc == s.ret && len == 0
        else View() == old(View())[s.used + s.ret..] && rc == if len == 0 then NO_ENTRY else 0
      ensures rc == 0 ==> 0 < len < old(len)
    {
      rc := SkipIfExists(kind);
      if rc != 0 {
        len := 0;
      }
    }

    /** asn1_shrink: the cursor covers the first object only, header included. */
    method Shrink(kind: int) returns (rc: int)
      requires Valid()
      modifies this
      ensures Valid() && data == old(data) && len <= old(len)
      ensures var s := Start(old(View()), kind, 0);
        if s.ret < 0 then rc == s.ret && len == 0
        else rc == 0 && View() == old(View())[..s.used + s.ret]
    {
      var temp := new Cursor(bytes, data, len);
      assert temp.View() == View();
      var n := temp.StartObject(kind, 0);
      if n < 0 {
        len := 0;
        return n;
      }
      var end := temp.data + n;
      len := end - data;
      SubView(bytes, old(data), old(len), 0, len);
      return 0;
    }

    /** Visit every object under the cursor: enter a copy for the content, then skip. */
    method Items() returns (items: seq<Item>)
      requires Valid()
      modifies this
      ensures Valid() && len == 0 && items == Walk(old(View()))
    {
      hide Start, Walk;
      items := [];
      ghost var all := Walk(View());
      while len != 0
        invariant Valid() && items + Walk(View()) == all
        decreases len
      {
        ghost var view := View();
        WalkStep(view);
        var inner := new Cursor(bytes, data, len);
        assert inner.View() == view;
        var kind := bytes[data];
        assert kind == view[0];
        ghost var before := items;
        var rc := inner.Enter(ANY);
        if rc == 0 {
          items := items + [Item(kind, inner.View())];
        }
        ghost var found := rc == 0;
        rc := Skip(ANY);
        if found {
          assert items + Walk(View()) == before + ([Item(kind, inner.View())] + Walk(View()));
        } else {
          assert View() == [];
        }
      }
      WalkStep([]);
      assert View() == [];
    }
  }

  lemma WalkStep(view: seq<Byte>)
    ensures var h := Start(view, ANY, 0);
      if h.ret < 0 then Walk(view) == [] && Walk([]) == []
      else Walk(view) == [Item(view[0], view[h.used..h.used + h.ret])] + Walk(view[h.used + h.ret..])
  {
  }

  //////////////////////////////////////////////////////////////////////////////
  // Builders
  //////////////////////////////////////////////////////////////////////////////

  const NO_MEMORY := -7

  method CountBytes(n: nat) returns (lenLen: nat)
    ensures lenLen == |BigEndian(n)|
  {
    lenLen := 0;
    var temp := n;
    while temp != 0
      invariant |BigEndian(n)| == lenLen + |BigEndian(temp)|
      decreases temp
    {
      temp := temp / 256;
      lenLen := lenLen + 1;
    }
  }

  /** The bytes of the length, stored from the last to the first behind the count. */
  method StoreBytes(length: array<Byte>, n: nat, lenLen: nat)
    requires lenLen == |BigEndian(n)| && lenLen < length.Length
    modifies length
    ensures length[0] == old(length[0]) && length[1..lenLen + 1] == BigEndian(n)
  {
    var k, temp := lenLen, n;
    ghost var stored: seq<Byte> := [];
    while temp != 0
      invariant 0 <= k <= lenLen && k == |BigEndian(temp)|
      invariant |stored| == lenLen - k && BigEndian(n) == BigEndian(temp) + stored
      invariant forall j :: 0 <= j < |stored| ==> length[k + 1 + j] == stored[j]
      invariant length[0] == old(length[0])
      decreases temp
    {
      length[k] := temp % 256;
      ghost var was := stored;
      stored := [temp % 256] + stored;
      assert BigEndian(temp) + was == BigEndian(temp / 256) + stored;
      temp := temp / 256;
      k := k - 1;
    }
    assert length[1..lenLen + 1] == stored;
  }

  /** asn1_header: count the bytes of the length, then store them. */
  method AsnHeader(kind: Byte, n: nat) returns (h: seq<Byte>)
    requires n < SIZE
    ensures |BigEndian(n)| <= 8 && h == Header(kind, n)
  {
    SizeLength(n);
    if n < 0x80 {
      return [kind, n];
    }
    hide BigEndian, Pow;
    var lenLen := CountBytes(n);
    var length := new Byte[9];
    length[0] := 0x80 + lenLen;
    StoreBytes(length, n, lenLen);
    h := [kind, length[0]] + length[1..lenLen + 1];
  }

  class Builder {
    var data: seq<Byte>
    var present: bool
    var len: nat

    constructor ()
      ensures Valid() && len == 0 && !Failed()
    {
      data, present, len := [], false, 0;
    }

    ghost predicate Valid()
      reads this
    {
      |data| == if present then len else 0
    }

    /** An allocation has failed, and every later operation fails too. */
    predicate Failed()
      reads this
    {
      len != 0 && !present
    }

    /** asn1_grow: whether realloc succeeds is the parameter memory. A failure is remembered unless the
        builder was still empty. */
    method Grow(extra: nat, memory: bool) returns (rc: int)
      requires Valid()
      modifies this
      ensures Valid() && rc == if old(Failed()) || !memory then NO_MEMORY else 0
      ensures old(Failed()) ==> Failed() && len == old(len)
      ensures !old(Failed()) && !memory ==> len == old(len) && !present && (Failed() <==> old(len) != 0)
      ensures rc == 0 ==> present && len == old(len) + extra && data[extra..] == old(data)
    {
      if len != 0 && !present {
        return NO_MEMORY;
      }
      if !memory {
        data, present := [], false;
        return NO_MEMORY;
      }
      data := seq(extra, _ => 0) + data;
      present := true;
      len := len + extra;
      assert data[extra..] == old(data);
      return 0;
    }

    /** asn1_prepend_raw. */
    method PrependRaw(raw: seq<Byte>, memory: bool) returns (rc: int)
      requires Valid()
      modifies this
      ensures Valid() && rc == if old(Failed()) || !memory then NO_MEMORY else 0
      ensures rc == 0 ==> present && data == raw + old(data)
      ensures rc != 0 ==> len == old(len) && !present
    {
      rc := Grow(|raw|, memory);
      if rc != 0 {
        return;
      }
      data := raw + data[|raw|..];
    }

    /** asn1_prepend. */
    method Prepend(kind: Byte, body: seq<Byte>, memory: bool) returns (rc: int)
      requires Valid() && |body| < SIZE
      modifies this
      ensures Valid() && rc == if old(Failed()) || !memory then NO_MEMORY else 0
      ensures |BigEndian(|body|)| <= 8
      ensures rc == 0 ==> present && data == Encode(Item(kind, body)) + old(data)
      ensures rc != 0 ==> len == old(len) && !present
    {
      SizeLength(|body|);
      var h := AsnHeader(kind, |body|);
      hide Header;
      rc := Grow(|h| + |body|, memory);
      if rc != 0 {
        return;
      }
      data := h + body + data[|h| + |body|..];
    }

    /** asn1_wrap. */
    method Wrap(kind: Byte, memory: bool) returns (rc: int)
      requires Valid() && len < SIZE
      modifies this
      ensures Valid() && rc == if old(Failed()) || !memory then NO_MEMORY else 0
      ensures |BigEndian(|old(data)|)| <= 8
      ensures rc == 0 ==> present && data == Encode(Item(kind, old(data)))
      ensures rc != 0 ==> len == old(len) && !present
    {
      SizeLength(len);
      SizeLength(|data|);
      var h := AsnHeader(kind, len);
      hide Header;
      rc := Grow(|h|, memory);
      if rc != 0 {
        return;
      }
      data := h + data[|h|..];
    }

    /** Prepend the items from the last to the first, then wrap them. */
    method Build(kind: Byte, items: seq<Item>) returns (rc: int)
      requires Valid() && len == 0 && Sized(items) && |EncodeAll(items)| < INT_LIMIT
      modifies this
      ensures rc == 0 && Valid() && |BigEndian(|EncodeAll(items)|)| <= 4
      ensures data == Encode(Item(kind, EncodeAll(items)))
    {
      SizedHeader(|EncodeAll(items)|);
      hide Header, Encode;
      var k := |items|;
      while k > 0
        invariant 0 <= k <= |items| && Valid() && !Failed()
        invariant data == EncodeAll(items[k..])
      {
        k := k - 1;
        assert items[k..][1..] == items[k + 1..];
        rc := Prepend(items[k].kind, items[k].body, true);
      }
      assert items[0..] == items;
      rc := Wrap(kind, true);
    }
  }

  /** The documentation of asn1_skip_if_exists promises that an error leaves the cursor alone. This one moves it
      behind a header whose content is missing. */
  method SkipErrorExample() returns (rc: int, moved: nat)
    ensures rc == LEN && moved == 2
  {
    var c := new Cursor([0x30, 5], 0, 2);
    ghost var view := c.View();
    assert view == [0x30, 5];
    TruncatedObject(view);
    rc := c.SkipIfExists(ANY);
    moved := c.data;
  }

  lemma TruncatedObject(view: seq<Byte>)
    requires view == [0x30, 5]
    ensures Start(view, ANY, 0) == Started(2, LEN)
  {
    assert view[1..2] == [5] && [5][1..] == [];
    assert Accumulate(0, [5]) == Accumulate(5, []);
  }

  /** asn1_grow sets out to make errors permanent. On a new builder it does not. */
  method GrowErrorExample() returns (first: int, second: int)
    ensures first == NO_MEMORY && second == 0
  {
    var b := new Builder();
    first := b.Grow(1, false);
    second := b.Grow(1, true);
  }

  /** What a builder has put together from items, a cursor takes apart into the same items. */
  lemma BuiltIsRecovered(kind: Byte, items: seq<Item>)
    requires Sized(items) && |EncodeAll(items)| < INT_LIMIT
    ensures |BigEndian(|EncodeAll(items)|)| <= 4
    ensures var view := Encode(Item(kind, EncodeAll(items)));
      var s := Start(view, kind, 0);
      s.ret >= 0 && s.used + s.ret == |view| && Walk(view[s.used..s.used + s.ret]) == items
  {
    hide Start, Walk, EncodeAll, BigEndian;
    var body := EncodeAll(items);
    SizedHeader(|body|);
    StartHeader(kind, |body|, body, kind);
    hide Header;
    var h := Header(kind, |body|);
    var view := h + body;
    assert view[|h|..|h| + |body|] == body;
    WalkEncoded(items);
  }
}
