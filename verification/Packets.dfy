/**
 * Packets inside packets.  A packet compiles itself into a buffer, one that
 * wraps another or holds several puts its own bytes in front of theirs.  The
 * receiving side takes the layers off again: what kind of packet a buffer
 * holds is not in the buffer but known from the layer around it, which is the
 * format here.
 */
module Packets {
  import opened Bits
  import opened CStrings
  import opened Options
  import opened Unsigned

  type Size = n: nat | n > 0 witness 1

  datatype Packet =
    | Raw(data: seq<Byte>)
    | Text(text: CString)
    | Wrapped(prefix: seq<Byte>, wrappee: Packet)
    | Typed(key: seq<Byte>, wrappee: Packet)
    | Named(name: CString, wrappee: Packet)
    | Many(children: seq<Packet>)

  /** What kind of packet to make of a buffer; the registries are those of the factories. */
  datatype Format =
    | RawFormat
    | TextFormat
    | WrappedFormat(prefixSize: Size, inner: Format)
    | TypedFormat(keySize: Size, types: map<seq<Byte>, Format>)
    | NamedFormat(names: map<seq<Byte>, Format>)
    | ManyFormat(child: Format)

  // ----- buffers

  /** The bytes of a compiled packet. */
  function Bytes(p: Packet): seq<Byte> {
    match p
    case Raw(data) => data
    case Text(text) => Terminated(text)
    case Wrapped(prefix, wrappee) => prefix + Bytes(wrappee)
    case Typed(key, wrappee) => key + Bytes(wrappee)
    case Named(name, wrappee) => Terminated(name) + Bytes(wrappee)
    case Many(children) => FourBytes(|children|) + Items(children)
  }

  /** Every child behind its size. */
  function Items(children: seq<Packet>): seq<Byte> {
    if children == [] then []
    else FourBytes(|Bytes(children[0])|) + Bytes(children[0]) + Items(children[1..])
  }

  /**
   * The packet in a buffer; none where the factories give the null packet, and
   * where a size, a key or a string does not end inside the buffer.
   */
  function Create(f: Format, d: seq<Byte>): Option<Packet>
    decreases |d|, 0
  {
    match f
    case RawFormat => Some(Raw(d))
    case TextFormat => if 0 in d then Some(Text(StringIn(d))) else None
    case WrappedFormat(prefixSize, inner) =>
      if |d| < prefixSize then None
      else WithLayer(Create(inner, d[prefixSize..]), w => Wrapped(d[..prefixSize], w))
    case TypedFormat(keySize, types) =>
      if |d| < keySize || d[..keySize] !in types then None
      else WithLayer(Create(types[d[..keySize]], d[keySize..]), w => Typed(d[..keySize], w))
    case NamedFormat(names) =>
      var name: CString := StringIn(d);
      if 0 !in d || name !in names then None
      else WithLayer(Create(names[name], d[|name| + 1..]), w => Named(name, w))
    case ManyFormat(child) =>
      if |d| < 4 then None
      else WithLayers(Parsed(child, d[4..], NumberOf(d[..4])))
  }

  function WithLayer(wrappee: Option<Packet>, layer: Packet -> Packet): Option<Packet> {
    if wrappee.None? then None else Some(layer(wrappee.value))
  }

  function WithLayers(children: Option<seq<Packet>>): Option<Packet> {
    if children.None? then None else Some(Many(children.value))
  }

  /** The next n children; a null packet is left out. */
  function Parsed(f: Format, d: seq<Byte>, n: nat): (children: Option<seq<Packet>>)
    decreases |d|, 1, n
  {
    if n == 0 then Some([])
    else if |d| < 4 || |d| < 4 + NumberOf(d[..4]) then None
    else
      var size := NumberOf(d[..4]);
      var rest := Parsed(f, d[4 + size..], n - 1);
      if rest.None? then None else Some(Present(Create(f, d[4..4 + size])) + rest.value)
  }

  function Present(child: Option<Packet>): seq<Packet> {
    if child.None? then [] else [child.value]
  }

  // ----- round trips

  /** The layers of a packet are those its format takes off, and all its keys are registered. */
  predicate Fits(f: Format, p: Packet) {
    match p
    case Raw(_) => f.RawFormat?
    case Text(_) => f.TextFormat?
    case Wrapped(prefix, wrappee) => f.WrappedFormat? && |prefix| == f.prefixSize && Fits(f.inner, wrappee)
    case Typed(key, wrappee) => f.TypedFormat? && |key| == f.keySize && key in f.types && Fits(f.types[key], wrappee)
    case Named(name, wrappee) => f.NamedFormat? && name in f.names && Fits(f.names[name], wrappee)
    case Many(children) => f.ManyFormat? && forall k :: 0 <= k < |children| ==> Fits(f.child, children[k])
  }

  /** What fits in memory comes back exactly when the format fits it. */
  lemma {:induction false} CreateBack(f: Format, p: Packet)
    requires |Bytes(p)| < UNSIGNED_RANGE
    ensures Create(f, Bytes(p)) == Some(p) <==> Fits(f, p)
    decreases p
  {
    hide Create, Bytes, Fits;
    match p
    case Raw(_) => UnlayeredBack(f, p);
    case Text(_) => UnlayeredBack(f, p);
    case Wrapped(prefix, wrappee) =>
      WrappedBack(f, prefix, wrappee);
      if f.WrappedFormat? && |prefix| == f.prefixSize {
        CreateBack(f.inner, wrappee);
      }
    case Typed(key, wrappee) =>
      TypedBack(f, key, wrappee);
      if f.TypedFormat? && |key| == f.keySize && key in f.types {
        CreateBack(f.types[key], wrappee);
      }
    case Named(name, wrappee) =>
      NamedBack(f, name, wrappee);
      if f.NamedFormat? && name in f.names {
        CreateBack(f.names[name], wrappee);
      }
    case Many(children) =>
      ManyBack(f, children);
      if f.ManyFormat? {
        KeptAll(f.child, children);
      }
  }

  lemma UnlayeredBack(f: Format, p: Packet)
    requires p.Raw? || p.Text?
    ensures Create(f, Bytes(p)) == Some(p) <==> Fits(f, p)
  {
    hide StringIn;
    if p.Text? {
      StringBack(p.text, []);
      assert Bytes(p) == Terminated(p.text) + [];
    }
  }

  /** Taking off a prefix leaves the packet below, and the same for keys and names. */
  lemma WrappedBack(f: Format, prefix: seq<Byte>, wrappee: Packet)
    ensures var p := Wrapped(prefix, wrappee);
            && |Bytes(wrappee)| <= |Bytes(p)|
            && (Fits(f, p) <==> f.WrappedFormat? && |prefix| == f.prefixSize && Fits(f.inner, wrappee))
            && (Create(f, Bytes(p)) == Some(p)
                <==> f.WrappedFormat? && |prefix| == f.prefixSize && Create(f.inner, Bytes(wrappee)) == Some(wrappee))
  {
    var b := Bytes(wrappee);
    var d := Bytes(Wrapped(prefix, wrappee));
    assert d[..|prefix|] == prefix && d[|prefix|..] == b;
  }

  lemma TypedBack(f: Format, key: seq<Byte>, wrappee: Packet)
    ensures var p := Typed(key, wrappee);
            && |Bytes(wrappee)| <= |Bytes(p)|
            && (Fits(f, p) <==> f.TypedFormat? && |key| == f.keySize && key in f.types && Fits(f.types[key], wrappee))
            && (Create(f, Bytes(p)) == Some(p) <==>
                f.TypedFormat? && |key| == f.keySize && key in f.types &&
                 Create(f.types[key], Bytes(wrappee)) == Some(wrappee))
  {
    var b := Bytes(wrappee);
    var d := Bytes(Typed(key, wrappee));
    assert d[..|key|] == key && d[|key|..] == b;
  }

  lemma NamedBack(f: Format, name: CString, wrappee: Packet)
    ensures var p := Named(name, wrappee);
            && |Bytes(wrappee)| <= |Bytes(p)|
            && (Fits(f, p) <==> f.NamedFormat? && name in f.names && Fits(f.names[name], wrappee))
            && (Create(f, Bytes(p)) == Some(p) <==>
                f.NamedFormat? && name in f.names && Create(f.names[name], Bytes(wrappee)) == Some(wrappee))
  {
    var b := Bytes(wrappee);
    var d := Bytes(Named(name, wrappee));
    StringBack(name, b);
    assert d[|name| + 1..] == b;
  }

  lemma ManyBack(f: Format, children: seq<Packet>)
    requires |Bytes(Many(children))| < UNSIGNED_RANGE
    ensures var p := Many(children);
            && |Items(children)| <= |Bytes(p)|
            && (Fits(f, p) <==> f.ManyFormat? && forall k :: 0 <= k < |children| ==> Fits(f.child, children[k]))
            && (Create(f, Bytes(p)) == Some(p) <==> f.ManyFormat? && Kept(f.child, children) == children)
  {
    hide Parsed, Items, FourBytes, NumberOf;
    if f.ManyFormat? {
      ArrayParsed(f.child, children);
    }
  }

  /** The children that are not null when they are made again. */
  function Kept(f: Format, children: seq<Packet>): (k: seq<Packet>)
    ensures |k| <= |children|
  {
    if children == [] then [] else Present(Create(f, Bytes(children[0]))) + Kept(f, children[1..])
  }

  lemma {:induction false} ItemsLength(children: seq<Packet>)
    ensures |Items(children)| >= 4 * |children|
  {
    if children != [] {
      ItemsLength(children[1..]);
    }
  }

  /** Decompiling finds the children in order, whatever follows the array. */
  lemma {:induction false} ParsedBack(f: Format, children: seq<Packet>, rest: seq<Byte>)
    requires |Items(children)| < UNSIGNED_RANGE
    ensures Parsed(f, Items(children) + rest, |children|) == Some(Kept(f, children))
    decreases |children|
  {
    hide Create, Bytes, FourBytes, NumberOf;
    if children != [] {
      var b, more := Bytes(children[0]), Items(children[1..]) + rest;
      var d := Items(children) + rest;
      NumberBack(|b|);
      assert d == FourBytes(|b|) + b + more;
      assert d[..4] == FourBytes(|b|) && d[4..4 + |b|] == b && d[4 + |b|..] == more;
      ParsedBack(f, children[1..], rest);
    }
  }

  // ----- where the bytes are

  /** Where child k of an array begins with its size: behind the count and the children before it. */
  function StartOf(children: seq<Packet>, k: nat): nat
    requires k <= |children|
  {
    if k == 0 then 4 else StartOf(children, k - 1) + 4 + |Bytes(children[k - 1])|
  }

  lemma ItemsFirst(children: seq<Packet>)
    requires children != []
    ensures Items(children) == (FourBytes(|Bytes(children[0])|) + Bytes(children[0])) + Items(children[1..])
  {
    hide Bytes, FourBytes;
  }

  lemma {:induction false} ItemsSplit(children: seq<Packet>, k: nat)
    requires k <= |children|
    ensures |Items(children)| >= StartOf(children, k) - 4
    ensures Items(children)[StartOf(children, k) - 4..] == Items(children[k..])
  {
    hide Bytes, FourBytes, Items;
    if k == 0 {
      assert children[0..] == children;
    } else {
      ItemsSplit(children, k - 1);
      var c, at := children[k - 1], StartOf(children, k - 1) - 4;
      ItemsFirst(children[k - 1..]);
      assert children[k - 1..][1..] == children[k..] && children[k - 1..][0] == c;
      var item := FourBytes(|Bytes(c)|) + Bytes(c);
      assert Items(children)[at..] == item + Items(children[k..]);
      assert Items(children)[at + |item|..] == Items(children)[at..][|item|..];
    }
  }

  /** The count comes first; every child lies behind its size, in order and without gaps. */
  lemma ChildAt(children: seq<Packet>, k: nat)
    requires k < |children|
    ensures var d, at, b := Bytes(Many(children)), StartOf(children, k), Bytes(children[k]);
            && d[..4] == FourBytes(|children|) && at + 4 + |b| <= |d| == StartOf(children, |children|)
            && d[at..at + 4] == FourBytes(|b|) && d[at + 4..at + 4 + |b|] == b
  {
    ArrayBytes(children);
    hide Bytes, FourBytes, Items;
    var d, at, b, items := Bytes(Many(children)), StartOf(children, k), Bytes(children[k]), Items(children);
    ItemsSplit(children, |children|);
    ItemsSplit(children, k);
    FirstItem(children[k..]);
    NoItems(children);
    assert children[k..][0] == children[k];
    var rest := items[at - 4..];
    assert rest[..4] == FourBytes(|b|) && rest[4..4 + |b|] == b;
    InRest(d, FourBytes(|children|), items, at, |b|);
  }

  lemma FirstItem(children: seq<Packet>)
    requires children != []
    ensures var items, b := Items(children), Bytes(children[0]);
            4 + |b| <= |items| && items[..4] == FourBytes(|b|) && items[4..4 + |b|] == b
  {
    hide Bytes, FourBytes, Items;
    ItemsFirst(children);
  }

  lemma NoItems(children: seq<Packet>)
    ensures Items(children[|children|..]) == []
  {
  }

  lemma InRest(d: seq<Byte>, count: seq<Byte>, items: seq<Byte>, at: nat, n: nat)
    requires |count| == 4 && d == count + items && 4 <= at && at + 4 + n <= |d|
    ensures var rest := items[at - 4..];
            && d[..4] == count && d[at..at + 4] == rest[..4]
            && d[at + 4..at + 4 + n] == rest[4..4 + n]
  {
  }

  lemma CreateMany(f: Format, d: seq<Byte>)
    requires |d| >= 4
    ensures Create(ManyFormat(f), d) == WithLayers(Parsed(f, d[4..], NumberOf(d[..4])))
  {
    hide Parsed, NumberOf;
  }

  lemma ArrayParsed(f: Format, children: seq<Packet>)
    requires |Bytes(Many(children))| < UNSIGNED_RANGE
    ensures Create(ManyFormat(f), Bytes(Many(children))) == Some(Many(Kept(f, children)))
  {
    ArrayBytes(children);
    hide Parsed, Items, FourBytes, NumberOf, Create, Bytes, Kept;
    var d := Bytes(Many(children));
    NumberBack(|children|);
    ItemsLength(children);
    assert d[..4] == FourBytes(|children|) && d[4..] == Items(children) + [];
    CreateMany(f, d);
    ParsedBack(f, children, []);
  }

  lemma {:induction false} KeptAll(f: Format, children: seq<Packet>)
    requires |Items(children)| < UNSIGNED_RANGE
    ensures Kept(f, children) == children <==> forall k :: 0 <= k < |children| ==> Fits(f, children[k])
    decreases children
  {
    hide Create, Bytes, Fits;
    if children != [] {
      var first, others := children[0], children[1..];
      assert |Items(children)| == 4 + |Bytes(first)| + |Items(others)|;
      CreateBack(f, first);
      KeptAll(f, others);
      assert Kept(f, children) == Present(Create(f, Bytes(first))) + Kept(f, others);
      if Kept(f, children) == children {
        assert Create(f, Bytes(first)).Some?;
        assert Kept(f, children)[1..] == Kept(f, others);
        forall k | 0 <= k < |children| ensures Fits(f, children[k]) {
          if k > 0 {
            assert children[k] == others[k - 1];
          }
        }
      }
      if forall k :: 0 <= k < |children| ==> Fits(f, children[k]) {
        forall k | 0 <= k < |others| ensures Fits(f, others[k]) {
          assert others[k] == children[k + 1];
        }
        assert children == [first] + others;
      }
    }
  }

  // ----- names

  /** A wrapped packet with a string in front; a key with a zero in it leaves a gap that is not written. */
  function NameCompiled(key: seq<Byte>, gap: seq<Byte>, wrappee: seq<Byte>): seq<Byte>
    requires |gap| == |key| - |StringIn(key)|
  {
    Terminated(StringIn(key)) + gap + wrappee
  }

  /** What StringWrappedPacket hands on to make the packet below the name. */
  function BelowName(d: seq<Byte>): seq<Byte>
    requires 0 in d
  {
    d[|StringIn(d)| + 1..]
  }

  /** What StringTypedPacketFactory hands on when it makes that packet from the whole buffer. */
  function BelowNameInFactory(d: seq<Byte>): seq<Byte> {
    d[|StringIn(d)|..]
  }

  lemma NameAndWrappeeBack(key: seq<Byte>, gap: seq<Byte>, wrappee: seq<Byte>)
    requires |gap| == |key| - |StringIn(key)|
    ensures var d := NameCompiled(key, gap, wrappee);
            0 in d && (StringIn(d) == key && BelowName(d) == wrappee <==> 0 !in key)
  {
    var s: CString := StringIn(key);
    StringBack(s, gap + wrappee);
    var d := NameCompiled(key, gap, wrappee);
    assert d == Terminated(s) + (gap + wrappee);
    if 0 !in key {
      assert gap == [] && d[|s| + 1..] == wrappee;
    }
  }

  /** The factory leaves the terminating zero in front, so a text below a name comes back empty. */
  lemma FactoryKeepsZero(name: CString, wrappee: Packet)
    ensures var d := Bytes(Named(name, wrappee));
            && 0 in d && BelowName(d) == Bytes(wrappee) && BelowNameInFactory(d) == [0] + Bytes(wrappee)
            && (wrappee.Text? ==> Create(TextFormat, BelowNameInFactory(d)) == Some(Text([])))
  {
    var b := Bytes(wrappee);
    StringBack(name, b);
    var d := Bytes(Named(name, wrappee));
    assert d[|name| + 1..] == b && d[|name|..] == [0] + b;
  }

  // ----- compiling

  lemma {:induction false} ItemsPush(children: seq<Packet>, k: nat)
    requires k < |children|
    ensures Items(children[..k + 1])
         == Items(children[..k]) + FourBytes(|Bytes(children[k])|) + Bytes(children[k])
  {
    hide Bytes, FourBytes;
    var p, q := children[..k], children[..k + 1];
    if k > 0 {
      ItemsPush(children[1..], k - 1);
      assert p[1..] == children[1..][..k - 1] && q[1..] == children[1..][..k];
    }
  }

  lemma {:induction false} ItemsGrow(children: seq<Packet>, k: nat)
    requires k <= |children|
    ensures |Items(children[..k])| <= |Items(children)|
    decreases |children| - k
  {
    if k == |children| {
      assert children[..k] == children;
    } else {
      ItemsPush(children, k);
      ItemsGrow(children, k + 1);
    }
  }

  lemma ItemsNone(children: seq<Packet>)
    ensures Items(children[..0]) == []
  {
  }

  lemma ArrayBytes(children: seq<Packet>)
    ensures Bytes(Many(children)) == FourBytes(|children|) + Items(children)
  {
  }

  /** A size and a packet written one after the other behind what is done. */
  lemma ItemWritten(d: seq<Byte>, done: seq<Byte>, size: seq<Byte>, b: seq<Byte>, e: seq<Byte>)
    requires |done| + |size| + |b| <= |d|
    requires var d1 := done + d[|done|..];
             var d2 := d1[..|done|] + size + d1[|done| + |size|..];
             e == d2[..|done| + |size|] + b + d2[|done| + |size| + |b|..]
    ensures e == done + size + b + d[|done| + |size| + |b|..]
  {
    var d1 := done + d[|done|..];
    var d2 := d1[..|done|] + size + d1[|done| + |size|..];
    assert d1[..|done|] == done && d1[|done| + |size|..] == d[|done| + |size|..];
    assert d2[..|done| + |size|] == done + size && d2[|done| + |size| + |b|..] == d[|done| + |size| + |b|..];
  }

  lemma SumWraps(a: nat, b: nat)
    ensures (a % UNSIGNED_RANGE + b % UNSIGNED_RANGE) % UNSIGNED_RANGE == (a + b) % UNSIGNED_RANGE
  {
  }

  lemma FrontWraps(a: nat, b: nat)
    ensures (a + b % UNSIGNED_RANGE) % UNSIGNED_RANGE == (a + b) % UNSIGNED_RANGE
  {
  }

  /** The size of a compiled packet, in an unsigned. */
  method CompiledSize(p: Packet) returns (size: nat)
    ensures size == |Bytes(p)| % UNSIGNED_RANGE
    decreases p
  {
    match p
    case Raw(data) => size := |data| % UNSIGNED_RANGE;
    case Text(text) => size := (|text| + 1) % UNSIGNED_RANGE;
    case Wrapped(prefix, wrappee) =>
      var below := CompiledSize(wrappee);
      FrontWraps(|prefix|, |Bytes(wrappee)|);
      size := (|prefix| + below) % UNSIGNED_RANGE;
    case Typed(key, wrappee) =>
      var below := CompiledSize(wrappee);
      FrontWraps(|key|, |Bytes(wrappee)|);
      size := (|key| + below) % UNSIGNED_RANGE;
    case Named(name, wrappee) =>
      var below := CompiledSize(wrappee);
      FrontWraps(|name| + 1, |Bytes(wrappee)|);
      size := (|name| + 1 + below) % UNSIGNED_RANGE;
    case Many(children) => size := ArraySize(children);
  }

  method ArraySize(packets: seq<Packet>) returns (size: nat)
    ensures size == |Bytes(Many(packets))| % UNSIGNED_RANGE
    decreases packets
  {
    hide Bytes, FourBytes, Items;
    var ret := 0;
    ghost var sum: nat := 0;
    ItemsNone(packets);
    for k := 0 to |packets|
      invariant sum + 4 * k == |Items(packets[..k])| && ret == sum % UNSIGNED_RANGE
    {
      ItemsPush(packets, k);
      var child := CompiledSize(packets[k]);
      SumWraps(sum, |Bytes(packets[k])|);
      sum := sum + |Bytes(packets[k])|;
      ret := (ret + child) % UNSIGNED_RANGE;
    }
    assert packets[..|packets|] == packets;
    ArrayBytes(packets);
    SumWraps(sum, 4 + 4 * |packets|);
    size := (ret + (4 + 4 * |packets|) % UNSIGNED_RANGE) % UNSIGNED_RANGE;
  }

  method Put(target: array<Byte>, at: nat, d: seq<Byte>)
    requires at + |d| <= target.Length
    modifies target
    ensures target[..] == old(target[..at]) + d + old(target[at + |d|..])
  {
    forall i | 0 <= i < |d| {
      target[at + i] := d[i];
    }
  }

  /** Writes a packet into a buffer; the buffer is in memory, so sizes and positions do not wrap. */
  method Compile(p: Packet, buffer: array<Byte>, at: nat)
    requires at + |Bytes(p)| <= buffer.Length < UNSIGNED_RANGE
    modifies buffer
    ensures buffer[..] == old(buffer[..at]) + Bytes(p) + old(buffer[at + |Bytes(p)|..])
    decreases p, 1
  {
    match p
    case Raw(data) => Put(buffer, at, data);
    case Text(text) => Put(buffer, at, Terminated(text));
    case Wrapped(prefix, wrappee) =>
      var own := WrappedBuffer(prefix, wrappee);
      Put(buffer, at, own[..]);
    case Typed(key, wrappee) =>
      var own := WrappedBuffer(key, wrappee);
      Put(buffer, at, own[..]);
    case Named(name, wrappee) =>
      var own := WrappedBuffer(Terminated(name), wrappee);
      Put(buffer, at, own[..]);
    case Many(children) => CompileArray(children, buffer, at);
  }

  /** A wrapping packet compiles the packet below behind its own bytes when it is constructed. */
  method WrappedBuffer(front: seq<Byte>, wrappee: Packet) returns (own: array<Byte>)
    requires |front| + |Bytes(wrappee)| < UNSIGNED_RANGE
    ensures fresh(own) && own[..] == front + Bytes(wrappee)
    decreases wrappee, 2
  {
    var size := CompiledSize(wrappee);
    own := new Byte[|front| + size];
    hide Bytes;
    Put(own, 0, front);
    ghost var d := own[..];
    assert d[..|front|] == front && d[|front| + size..] == [];
    Compile(wrappee, own, |front|);
  }

  method CompileArray(packets: seq<Packet>, buffer: array<Byte>, at: nat)
    requires at + |Bytes(Many(packets))| <= buffer.Length < UNSIGNED_RANGE
    modifies buffer
    ensures buffer[..] == old(buffer[..at]) + Bytes(Many(packets)) + old(buffer[at + |Bytes(Many(packets))|..])
    decreases packets, 0
  {
    hide Bytes, FourBytes, Items;
    ghost var d := buffer[..];
    ghost var head := d[..at] + FourBytes(|packets|);
    ArrayBytes(packets);
    ItemsNone(packets);
    Put(buffer, at, FourBytes(|packets|));
    var pos := at + 4;
    for k := 0 to |packets|
      invariant pos == |head| + |Items(packets[..k])| <= |d|
      invariant buffer[..] == head + Items(packets[..k]) + d[pos..]
    {
      ItemsPush(packets, k);
      ItemsGrow(packets, k + 1);
      var size := CompiledSize(packets[k]);
      ghost var items := Items(packets[..k]);
      CompileItem(packets[k], size, buffer, pos, head + items, d);
      assert head + items + FourBytes(size) + Bytes(packets[k]) == head + Items(packets[..k + 1]);
      pos := pos + 4 + size;
    }
    assert packets[..|packets|] == packets;
  }

  /** One child behind its size; what is done of the buffer stands before it. */
  method CompileItem(p: Packet, size: nat, buffer: array<Byte>, pos: nat, ghost done: seq<Byte>, ghost d: seq<Byte>)
    requires size == |Bytes(p)| && |done| == pos && pos + 4 + size <= |d| == buffer.Length < UNSIGNED_RANGE
    requires buffer[..] == done + d[pos..]
    modifies buffer
    ensures buffer[..] == done + FourBytes(size) + Bytes(p) + d[pos + 4 + size..]
    decreases p, 2
  {
    hide Bytes, FourBytes;
    Put(buffer, pos, FourBytes(size));
    Compile(p, buffer, pos + 4);
    ItemWritten(d, done, FourBytes(size), Bytes(p), buffer[..]);
  }

  // ----- arrays of packets

  lemma PartOfPart(d: seq<Byte>, start: nat, size: nat, from: nat, n: nat)
    requires start + size <= |d| && from + n <= size
    ensures d[start..start + size][from..from + n] == d[start + from..start + from + n]
  {
    var c := d[start..start + size];
    var e, f := c[from..from + n], d[start + from..start + from + n];
    forall k | 0 <= k < n ensures e[k] == f[k] {
      assert c[from + k] == d[start + (from + k)];
    }
  }

  /** A part of a buffer that others may look at, too. */
  datatype SharedBuffer = SharedBuffer(data: array<Byte>, start: nat, size: nat) {
    ghost predicate Inside() {
      start + size <= data.Length < UNSIGNED_RANGE
    }

    ghost function Contents(): seq<Byte>
      requires Inside()
      reads data
    {
      data[start..start + size]
    }

    /** The bytes of a buffer that is a part of this one. */
    function Part(from: nat, n: nat): (d: seq<Byte>)
      requires Inside() && from + n <= size
      reads data
      ensures d == Contents()[from..from + n]
    {
      PartOfPart(data[..], start, size, from, n);
      data[start + from..start + from + n]
    }
  }

  lemma ParsedStep(f: Format, d: seq<Byte>, pos: nat, n: nat, rest: seq<Packet>) returns (more: seq<Packet>)
    requires pos <= |d| && n > 0 && Parsed(f, d[pos..], n) == Some(rest)
    ensures pos + 4 <= |d|
    ensures var at := pos + 4; var size := NumberOf(d[pos..at]);
            && at + size <= |d| && Parsed(f, d[at + size..], n - 1) == Some(more)
            && rest == Present(Create(f, d[at..at + size])) + more
  {
    hide Create, NumberOf;
    var c := d[pos..];
    var at := pos + 4;
    assert c[..4] == d[pos..at];
    var size := NumberOf(d[pos..at]);
    assert c[4..4 + size] == d[at..at + size] && c[4 + size..] == d[at + size..];
    more := Parsed(f, d[at + size..], n - 1).value;
  }

  lemma PresentFirst(packets: seq<Packet>, packet: Option<Packet>, more: seq<Packet>, rest: seq<Packet>)
    requires rest == Present(packet) + more
    ensures packet.None? ==> rest == more
    ensures packet.Some? ==> packets + [packet.value] + more == packets + rest
  {
  }

  lemma ParsedNothing(f: Format, d: seq<Byte>)
    ensures Parsed(f, d, 0) == Some([])
  {
  }

  /** An array packet, filled by its owner, or received and taken apart when it is looked into first. */
  class ArrayPacket {
    const child: Format
    const buffer: SharedBuffer
    var compiled: bool
    var packets: seq<Packet>

    ghost predicate Valid() {
      buffer.Inside()
    }

    /** The children in the buffer, if all sizes end inside it. */
    ghost function Received(): Option<seq<Packet>>
      requires Valid()
      reads buffer.data
    {
      var d := buffer.Contents();
      if |d| < 4 then None else Parsed(child, d[4..], NumberOf(d[..4]))
    }

    constructor (child: Format)
      ensures Valid() && !compiled && packets == [] && this.child == child
    {
      var data := new Byte[1];
      this.child := child;
      buffer := SharedBuffer(data, 0, 1);
      compiled := false;
      packets := [];
    }

    constructor FromBuffer(child: Format, buf: SharedBuffer)
      requires buf.Inside()
      ensures Valid() && compiled && packets == [] && this.child == child && buffer == buf
    {
      this.child := child;
      buffer := buf;
      compiled := true;
      packets := [];
    }

    method Append(packet: Packet)
      modifies this`packets
      ensures packets == old(packets) + [packet]
    {
      packets := packets + [packet];
    }

    method CompiledSize() returns (size: nat)
      ensures size == |Bytes(Many(packets))| % UNSIGNED_RANGE
    {
      size := ArraySize(packets);
    }

    /** What is not taken apart yet is not among the packets, and not written either. */
    method Compile(buffer: array<Byte>, at: nat)
      requires at + |Bytes(Many(packets))| <= buffer.Length < UNSIGNED_RANGE
      modifies buffer
      ensures buffer[..] == old(buffer[..at]) + Bytes(Many(packets)) + old(buffer[at + |Bytes(Many(packets))|..])
    {
      CompileArray(packets, buffer, at);
    }

    /** The number of packets, after taking apart what was received. */
    method Size() returns (n: nat)
      requires Valid() && (compiled ==> Received().Some?)
      modifies this
      ensures !compiled && packets == old(packets) + (if old(compiled) then old(Received()).value else [])
      ensures n == |packets|
    {
      if compiled {
        Decompile();
      }
      n := |packets|;
    }

    method Decompile()
      requires Valid() && Received().Some?
      modifies this
      ensures !compiled && packets == old(packets) + old(Received()).value
    {
      hide Create, Parsed, Present, NumberOf;
      ghost var d, all := buffer.Contents(), old(packets) + Received().value;
      var size := NumberOf(buffer.Part(0, 4));
      var pos := 4;
      ghost var rest := Received().value;
      for i := 0 to size
        invariant 4 <= pos <= |d| && d == buffer.Contents()
        invariant Parsed(child, d[pos..], size - i) == Some(rest)
        invariant packets + rest == all
      {
        ghost var more := ParsedStep(child, d, pos, size - i, rest);
        var packetSize := NumberOf(buffer.Part(pos, 4));
        pos := pos + 4;
        var packet := Create(child, buffer.Part(pos, packetSize));
        pos := pos + packetSize;
        PresentFirst(packets, packet, more, rest);
        if packet.Some? {
          packets := packets + [packet.value];
        }
        rest := more;
      }
      ParsedNothing(child, d[pos..]);
      compiled := false;
    }
  }

  /** Children appended, compiled, and taken out of the buffer again are those that the format keeps. */
  method ThroughBuffer(child: Format, children: seq<Packet>) returns (received: ArrayPacket)
    requires |Bytes(Many(children))| < UNSIGNED_RANGE
    ensures fresh(received) && !received.compiled && received.packets == Kept(child, children)
    ensures received.packets == children <==> forall k :: 0 <= k < |children| ==> Fits(child, children[k])
  {
    hide Bytes, Create, Kept, Fits, Items;
    var sender := new ArrayPacket(child);
    for k := 0 to |children|
      invariant sender.Valid() && fresh(sender) && sender.packets == children[..k]
    {
      sender.Append(children[k]);
    }
    assert children[..|children|] == children;
    var size := sender.CompiledSize();
    var buffer := new Byte[size];
    sender.Compile(buffer, 0);
    received := new ArrayPacket.FromBuffer(child, SharedBuffer(buffer, 0, size));
    assert received.buffer.Contents() == Bytes(Many(children));
    ReceivedKept(received, children);
    KeptInBuffer(child, children);
    var _ := received.Size();
  }

  lemma ReceivedKept(a: ArrayPacket, children: seq<Packet>)
    requires a.Valid() && a.buffer.Contents() == Bytes(Many(children)) && |Bytes(Many(children))| < UNSIGNED_RANGE
    ensures a.Received() == Some(Kept(a.child, children))
  {
    ArrayParsed(a.child, children);
  }

  lemma KeptInBuffer(child: Format, children: seq<Packet>)
    requires |Bytes(Many(children))| < UNSIGNED_RANGE
    ensures Kept(child, children) == children <==> forall k :: 0 <= k < |children| ==> Fits(child, children[k])
  {
    KeptAll(child, children);
  }

  /**
   * An array packet made of a buffer and compiled before it is looked into:
   * what is written is an empty array, so right exactly when it was empty.
   */
  method CompiledUnread(child: Format, buf: SharedBuffer, ghost children: seq<Packet>) returns (written: array<Byte>)
    requires buf.Inside() && buf.Contents() == Bytes(Many(children))
    ensures fresh(written) && written[..] == Bytes(Many([]))
    ensures written[..] == old(buf.Contents()) <==> children == []
  {
    var received := new ArrayPacket.FromBuffer(child, buf);
    var size := received.CompiledSize();
    written := new Byte[size];
    received.Compile(written, 0);
    UnreadChildrenAreLost(children);
  }

  lemma UnreadChildrenAreLost(children: seq<Packet>)
    ensures Bytes(Many([])) == Bytes(Many(children)) <==> children == []
    ensures |Bytes(Many([]))| == 4
  {
    ItemsLength(children);
    ItemsLength([]);
  }
}
