/** The GNU hash table: hash, bloom filter, and chain words that are read from the stream the symbol
    lookup moves. */
module GnuHash {
  import opened Common
  import opened Streams

  // ----- gnu_hash -----

  /** Computed on unbounded integers. */
  function Unbounded(s: Name): nat {
    if s == [] then 5381 else Unbounded(s[..|s| - 1]) * 33 + s[|s| - 1]
  }

  /** The 32-bit hash, cut at every step. */
  function Hash(s: Name): (h: nat)
    ensures h < 0x1_0000_0000
  {
    if s == [] then 5381 else (Hash(s[..|s| - 1]) * 33 + s[|s| - 1]) % 0x1_0000_0000
  }

  lemma HashPrefix(key: Name, i: nat)
    requires i < |key|
    ensures Hash(key[..i + 1]) == (Hash(key[..i]) * 33 + key[i]) % 0x1_0000_0000
  {
    assert key[..i + 1][..i] == key[..i];
  }

  lemma CutLater(h: nat, g: nat, c: nat)
    requires h % 0x1_0000_0000 == g
    ensures (h * 33 + c) % 0x1_0000_0000 == (g * 33 + c) % 0x1_0000_0000
  {
    var w, q := 0x1_0000_0000, h / 0x1_0000_0000;
    var n := g * 33 + c;
    assert h * 33 + c == (33 * q + n / w) * w + n % w;
    DivModUnique(h * 33 + c, w, 33 * q + n / w, n % w);
  }

  /** `gnu_hash`: cutting once at the end gives the 32-bit hash. */
  method ComputeHash(key: Name) returns (h: nat)
    ensures h == Hash(key)
  {
    h := 5381;
    for i := 0 to |key|
      invariant h % 0x1_0000_0000 == Hash(key[..i])
    {
      HashPrefix(key, i);
      CutLater(h, Hash(key[..i]), key[i]);
      h := h * 33 + key[i];
    }
    assert key[..|key|] == key;
    h := h % 0x1_0000_0000;
  }

  /** The hash of "exit". */
  lemma HashOfExit(key: Name)
    requires key == [0x65, 0x78, 0x69, 0x74]
    ensures Hash(key) == 0x7C967E3F
  {
    HashPrefix(key, 0);
    assert key[..0] == [] && key[..0 + 1] == key[..1] && Hash(key[..1]) == 177674;
    HashPrefix(key, 1);
    assert key[..1 + 1] == key[..2] && Hash(key[..2]) == 5863362;
    HashPrefix(key, 2);
    assert key[..2 + 1] == key[..3] && Hash(key[..3]) == 193491051;
    HashPrefix(key, 3);
    assert key[..3 + 1] == key;
  }

  // ----- bloom filter -----

  function SetBit(w: nat, k: nat): nat {
    if k == 0 then w - w % 2 + 1 else 2 * SetBit(w / 2, k - 1) + w % 2
  }

  lemma {:induction false} BitOfSetBit(w: nat, k: nat, j: nat)
    ensures Bit(SetBit(w, k), j) <==> j == k || Bit(w, j)
    decreases k
  {
    if k == 0 {
      if j > 0 { assert SetBit(w, k) / 2 == w / 2; }
    } else if j > 0 {
      BitOfSetBit(w / 2, k - 1, j - 1);
      assert SetBit(w, k) / 2 == SetBit(w / 2, k - 1);
    }
  }

  function Shifted(h: nat, n: nat): nat {
    if n == 0 then h else Shifted(h / 2, n - 1)
  }

  /** The word and the two bits of a hash. */
  function WordIndex(h: nat, bits: nat, size: nat): nat
    requires bits > 0 && size > 0
  {
    h / bits % size
  }

  /** `_matches_bloom`: the mask of two bits is contained in the word. */
  predicate Matches(bloom: seq<nat>, bits: nat, shift: nat, h: nat)
    requires bits > 0 && bloom != []
  {
    var w := bloom[WordIndex(h, bits, |bloom|)];
    Bit(w, h % bits) && Bit(w, Shifted(h, shift) % bits)
  }

  lemma {:induction false} ShiftedIsQuotient(h: nat, n: nat)
    ensures Shifted(h, n) == h / Pow2(n)
    decreases n
  {
    if n > 0 {
      ShiftedIsQuotient(h / 2, n - 1);
      DivDiv(h, 2, Pow2(n - 1));
    }
  }

  /** Which word and which two of its binary digits decide. */
  lemma MatchesMeaning(bloom: seq<nat>, bits: nat, shift: nat, h: nat, w: nat)
    requires bits > 0 && bloom != [] && w == bloom[h / bits % |bloom|]
    ensures Matches(bloom, bits, shift, h) <==> w / Pow2(h % bits) % 2 == 1 && w / Pow2(h / Pow2(shift) % bits) % 2 == 1
  {
    ShiftedIsQuotient(h, shift);
    BitIsDigit(w, h % bits);
    BitIsDigit(w, Shifted(h, shift) % bits);
  }

  /** The filter as a linker builds it: from zeros, two bits for every hash. */
  function Filter(size: nat, bits: nat, shift: nat, hashes: seq<nat>): (bloom: seq<nat>)
    requires bits > 0 && size > 0
    ensures |bloom| == size
  {
    if hashes == [] then seq(size, _ => 0)
    else
      var h := hashes[|hashes| - 1];
      var before := Filter(size, bits, shift, hashes[..|hashes| - 1]);
      var i := h / bits % size;
      before[i := SetBit(SetBit(before[i], h % bits), h / Pow2(shift) % bits)]
  }

  /** The filter never rejects a hash that was put in. */
  lemma {:induction false} FilterMatches(size: nat, bits: nat, shift: nat, hashes: seq<nat>, h: nat)
    requires bits > 0 && size > 0 && h in hashes
    ensures Matches(Filter(size, bits, shift, hashes), bits, shift, h)
    decreases |hashes|
  {
    var last, rest := hashes[|hashes| - 1], hashes[..|hashes| - 1];
    var before, i := Filter(size, bits, shift, rest), WordIndex(last, bits, size);
    if h != last { FilterMatches(size, bits, shift, rest, h); }
    ShiftedIsQuotient(h, shift);
    ShiftedIsQuotient(last, shift);
    TwoBits(before[i], last % bits, Shifted(last, shift) % bits, h % bits, Shifted(h, shift) % bits);
  }

  lemma TwoBits(w: nat, a: nat, b: nat, x: nat, y: nat)
    ensures var u := SetBit(SetBit(w, a), b);
      Bit(u, a) && Bit(u, b) && (Bit(w, x) ==> Bit(u, x)) && (Bit(w, y) ==> Bit(u, y))
  {
    BitOfSetBit(SetBit(w, a), b, a);
    BitOfSetBit(SetBit(w, a), b, b);
    BitOfSetBit(SetBit(w, a), b, x);
    BitOfSetBit(SetBit(w, a), b, y);
    BitOfSetBit(w, a, a);
    BitOfSetBit(w, a, x);
    BitOfSetBit(w, a, y);
  }

  // ----- the table -----

  /** The parameters; `chainPos` is where the chain words start in the stream. */
  datatype Table = Table(symoffset: nat, bloom: seq<nat>, bits: nat, shift: nat, buckets: seq<nat>, chainPos: nat, littleEndian: bool)

  /** What the symbol lookup makes of the file: the names it finds at each index up to the end of the file,
      also behind the symbol table, and where looking up a symbol leaves the shared stream. */
  datatype Symbols = Symbols(names: seq<Name>, after: nat -> nat)

  datatype Error = ZeroDivision | EmptyMax | ShortRead | EndOfFile

  /** The 32-bit word at a position of the stream. */
  function WordAt(data: seq<byte>, littleEndian: bool, pos: nat): Option<nat> {
    if pos + 4 <= |data| then Some(Number(data[pos..pos + 4], littleEndian)) else None
  }

  ghost predicate Within(word: nat -> Option<nat>, size: nat) {
    forall p: nat :: word(p).Some? ==> p + 4 <= size
  }

  /** The loop of the lookup on any table, well built or not: a symbol whose hash word agrees in its upper
      31 bits is looked up, which moves the stream. */
  ghost function Walk(word: nat -> Option<nat>, size: nat, syms: Symbols, name: Name, h: nat, pos: nat, i: nat): Result<Option<nat>, Error>
    requires Within(word, size)
    decreases if i < |syms.names| then |syms.names| - i else 0, size - pos
  {
    if word(pos).None? then Err(ShortRead)
    else
      var w := word(pos).value;
      if w / 2 == h / 2 then
        if i >= |syms.names| then Err(EndOfFile)
        else if syms.names[i] == name then Ok(Some(i))
        else if w % 2 == 1 then Ok(None)
        else Walk(word, size, syms, name, h, syms.after(i), i + 1)
      else if w % 2 == 1 then Ok(None)
      else Walk(word, size, syms, name, h, pos + 4, i + 1)
  }

  // ----- a correctly built table -----

  /** The words of the chains, as seen from the stream. */
  ghost predicate WordFor(t: Table, word: nat -> Option<nat>, names: seq<Name>, i: nat)
    requires t.symoffset <= i < |names| && t.buckets != []
  {
    var w := word(t.chainPos + 4 * (i - t.symoffset));
    && w.Some? && w.value / 2 == Hash(names[i]) / 2
    && (w.value % 2 == 1 <==> LastInBucket(t, names, i))
  }

  function BucketOf(t: Table, name: Name): nat
    requires t.buckets != []
  {
    Hash(name) % |t.buckets|
  }

  ghost predicate LastInBucket(t: Table, names: seq<Name>, i: nat)
    requires t.symoffset <= i < |names| && t.buckets != []
  {
    i + 1 == |names| || Hash(names[i + 1]) % |t.buckets| != Hash(names[i]) % |t.buckets|
  }

  /** The hashed symbols of a bucket are consecutive, and its entry is the first of them; an empty
      bucket's entry is below symoffset. */
  ghost predicate BucketFor(t: Table, names: seq<Name>, b: nat)
    requires b < |t.buckets|
  {
    var s := t.buckets[b];
    && (s >= t.symoffset ==> s < |names| && Hash(names[s]) % |t.buckets| == b)
    && (forall i :: t.symoffset <= i < |names| && Hash(names[i]) % |t.buckets| == b ==> t.symoffset <= s <= i)
  }

  ghost predicate Grouped(t: Table, names: seq<Name>)
    requires t.buckets != []
  {
    forall i, j, k :: t.symoffset <= i <= k <= j < |names| && Hash(names[i]) % |t.buckets| == Hash(names[j]) % |t.buckets|
      ==> Hash(names[k]) % |t.buckets| == Hash(names[i]) % |t.buckets|
  }

  ghost predicate Built(t: Table, word: nat -> Option<nat>, names: seq<Name>) {
    && t.bits > 0 && t.bloom != [] && t.buckets != [] && t.symoffset <= |names|
    && (forall i :: t.symoffset <= i < |names| ==> Matches(t.bloom, t.bits, t.shift, Hash(names[i])))
    && (forall i :: t.symoffset <= i < |names| ==> WordFor(t, word, names, i))
    && (forall b :: 0 <= b < |t.buckets| ==> BucketFor(t, names, b))
    && Grouped(t, names)
  }

  /** The linear scan over the hashed symbols from number `i`. */
  function Scan(names: seq<Name>, name: Name, i: nat): Option<nat>
    decreases |names| - i
  {
    if i >= |names| then None else if names[i] == name then Some(i) else Scan(names, name, i + 1)
  }

  lemma {:induction false} ScanIff(names: seq<Name>, name: Name, i: nat)
    ensures match Scan(names, name, i)
      case None => forall k :: i <= k < |names| ==> names[k] != name
      case Some(j) => i <= j < |names| && names[j] == name && forall k :: i <= k < j ==> names[k] != name
    decreases |names| - i
  {
    if i < |names| { ScanIff(names, name, i + 1); }
  }

  lemma {:induction false} ScanSkips(names: seq<Name>, name: Name, i: nat, j: nat)
    requires i <= j && forall k :: i <= k < j && k < |names| ==> names[k] != name
    ensures Scan(names, name, i) == Scan(names, name, j)
    decreases j - i
  {
    if i < j { ScanSkips(names, name, i + 1, j); }
  }

  /** No symbol of the walked chain, other than the last or one behind the symbol sought, has another
      name whose hash shares the upper 31 bits. */
  ghost predicate Clean(t: Table, names: seq<Name>, name: Name)
    requires t.buckets != []
  {
    forall i :: t.symoffset <= i < |names| && Confusable(t, names, name, i) ==>
      exists j :: t.symoffset <= j <= i && names[j] == name
  }

  ghost predicate Confusable(t: Table, names: seq<Name>, name: Name, i: nat)
    requires t.symoffset <= i < |names| && t.buckets != []
  {
    BucketOf(t, names[i]) == BucketOf(t, name) && !LastInBucket(t, names, i) && Hash(names[i]) / 2 == Hash(name) / 2
  }

  /** Behind the last symbol of its bucket a name does not occur again. */
  lemma NotBehindLast(t: Table, names: seq<Name>, name: Name, i: nat)
    requires t.buckets != [] && Grouped(t, names) && t.symoffset <= i < |names|
    requires BucketOf(t, names[i]) == BucketOf(t, name) && LastInBucket(t, names, i)
    ensures Scan(names, name, i + 1) == None
  {
    ScanIff(names, name, i + 1);
  }

  lemma {:induction false} WalkScans(t: Table, word: nat -> Option<nat>, size: nat, names: seq<Name>, syms: Symbols, name: Name, i: nat, pos: nat)
    requires Built(t, word, names) && Clean(t, names, name) && t.symoffset <= i < |names|
    requires Within(word, size) && names <= syms.names
    requires BucketOf(t, names[i]) == BucketOf(t, name) && forall k :: t.symoffset <= k < i ==> names[k] != name
    requires pos == t.chainPos + 4 * (i - t.symoffset)
    ensures Walk(word, size, syms, name, Hash(name), pos, i) == Ok(Scan(names, name, i))
    decreases |names| - i
  {
    assert WordFor(t, word, names, i) && syms.names[i] == names[i];
    if names[i] != name {
      if LastInBucket(t, names, i) {
        NotBehindLast(t, names, name, i);
      } else {
        assert !Confusable(t, names, name, i);
        WalkScans(t, word, size, names, syms, name, i + 1, pos + 4);
      }
    }
  }

  /** A walk that meets a confusable symbol before the name loses its place. */
  lemma {:induction false} WalkLoses(t: Table, word: nat -> Option<nat>, size: nat, syms: Symbols, name: Name, k: nat, i: nat, pos: nat)
    requires Built(t, word, syms.names) && Within(word, size) && t.symoffset <= k <= i < |syms.names|
    requires BucketOf(t, syms.names[k]) == BucketOf(t, name) && Confusable(t, syms.names, name, i)
    requires forall j :: t.symoffset <= j <= i ==> syms.names[j] != name
    requires forall j: nat :: syms.after(j) == size
    requires pos == t.chainPos + 4 * (k - t.symoffset)
    ensures Walk(word, size, syms, name, Hash(name), pos, k) == Err(ShortRead)
    decreases i - k
  {
    assert WordFor(t, word, syms.names, k);
    assert !LastInBucket(t, syms.names, k);
    if Hash(syms.names[k]) / 2 != Hash(name) / 2 {
      WalkLoses(t, word, size, syms, name, k + 1, i, pos + 4);
    }
  }

  /** What the lookup computes, on any table. */
  ghost function Lookup(t: Table, word: nat -> Option<nat>, size: nat, syms: Symbols, name: Name): Result<Option<nat>, Error>
    requires t.bits > 0 && Within(word, size)
  {
    if t.bloom == [] then Err(ZeroDivision)
    else if !Matches(t.bloom, t.bits, t.shift, Hash(name)) then Ok(None)
    else if t.buckets == [] then Err(ZeroDivision)
    else
      var i := t.buckets[BucketOf(t, name)];
      if i < t.symoffset then Ok(None)
      else Walk(word, size, syms, name, Hash(name), t.chainPos + 4 * (i - t.symoffset), i)
  }

  /** On every correctly built table, for every name that the filter rejects or whose chain is clean, the
      lookup returns exactly the symbol that the linear scan finds, or none when the scan finds none. */
  lemma LookupScans(t: Table, word: nat -> Option<nat>, size: nat, names: seq<Name>, syms: Symbols, name: Name)
    requires Built(t, word, names) && Within(word, size) && names <= syms.names
    requires !Matches(t.bloom, t.bits, t.shift, Hash(name)) || Clean(t, names, name)
    ensures Lookup(t, word, size, syms, name) == Ok(Scan(names, name, t.symoffset))
  {
    var s := t.buckets[BucketOf(t, name)];
    assert BucketFor(t, names, BucketOf(t, name));
    if Matches(t.bloom, t.bits, t.shift, Hash(name)) && s >= t.symoffset {
      LookupWalks(t, word, size, names, syms, name, s, t.chainPos + 4 * (s - t.symoffset));
    } else {
      ScanIff(names, name, t.symoffset);
    }
  }

  lemma LookupWalks(t: Table, word: nat -> Option<nat>, size: nat, names: seq<Name>, syms: Symbols, name: Name, s: nat, pos: nat)
    requires Built(t, word, names) && Within(word, size) && names <= syms.names
    requires Matches(t.bloom, t.bits, t.shift, Hash(name)) && Clean(t, names, name)
    requires s == t.buckets[BucketOf(t, name)] && s >= t.symoffset && pos == t.chainPos + 4 * (s - t.symoffset)
    ensures Lookup(t, word, size, syms, name) == Ok(Scan(names, name, t.symoffset))
  {
    assert BucketFor(t, names, BucketOf(t, name));
    ScanSkips(names, name, t.symoffset, s);
    WalkScans(t, word, size, names, syms, name, s, pos);
    LookupIsWalk(t, word, size, syms, name, s, pos);
  }

  lemma LookupIsWalk(t: Table, word: nat -> Option<nat>, size: nat, syms: Symbols, name: Name, s: nat, pos: nat)
    requires t.bits > 0 && t.bloom != [] && t.buckets != [] && Within(word, size) && Matches(t.bloom, t.bits, t.shift, Hash(name))
    requires s == t.buckets[BucketOf(t, name)] && s >= t.symoffset && pos == t.chainPos + 4 * (s - t.symoffset)
    ensures Lookup(t, word, size, syms, name) == Walk(word, size, syms, name, Hash(name), pos, s)
  {
  }

  /** The lookup does what the linear scan does. */
  ghost predicate LookupIsScan(t: Table, word: nat -> Option<nat>, size: nat, names: seq<Name>, syms: Symbols, name: Name)
    requires t.bits > 0 && Within(word, size)
  {
    Lookup(t, word, size, syms, name) == Ok(Scan(names, name, t.symoffset))
  }

  lemma LookupLoses(t: Table, word: nat -> Option<nat>, size: nat, syms: Symbols, name: Name)
    requires Built(t, word, syms.names) && Within(word, size) && forall j: nat :: syms.after(j) == size
    requires Matches(t.bloom, t.bits, t.shift, Hash(name)) && !Clean(t, syms.names, name)
    ensures Lookup(t, word, size, syms, name) == Err(ShortRead)
  {
    var names := syms.names;
    var i :| t.symoffset <= i < |names| && Confusable(t, names, name, i) && forall j :: t.symoffset <= j <= i ==> names[j] != name;
    var b := BucketOf(t, name);
    assert BucketFor(t, names, b);
    var s := t.buckets[b];
    WalkLoses(t, word, size, syms, name, s, i, t.chainPos + 4 * (s - t.symoffset));
  }

  /** That condition is exact: on a correctly built table the lookup does what the scan does, wherever the
      symbol lookups leave the stream, if and only if the filter rejects the name or its chain is clean. */
  lemma LookupScansIff(t: Table, word: nat -> Option<nat>, size: nat, names: seq<Name>, name: Name)
    requires Built(t, word, names) && Within(word, size)
    ensures (!Matches(t.bloom, t.bits, t.shift, Hash(name)) || Clean(t, names, name))
      <==> (forall syms: Symbols :: names <= syms.names ==> LookupIsScan(t, word, size, names, syms, name))
  {
    if !Matches(t.bloom, t.bits, t.shift, Hash(name)) || Clean(t, names, name) {
      forall syms: Symbols | names <= syms.names ensures LookupIsScan(t, word, size, names, syms, name) {
        LookupScans(t, word, size, names, syms, name);
      }
    } else {
      var syms := Symbols(names, (j: nat) => size);
      LookupLoses(t, word, size, syms, name);
      assert !LookupIsScan(t, word, size, names, syms, name);
    }
  }

  /** On any table whatever, a symbol that is returned has the name. */
  lemma {:induction false} WalkSound(word: nat -> Option<nat>, size: nat, syms: Symbols, name: Name, h: nat, pos: nat, i: nat)
    requires Within(word, size)
    ensures var r := Walk(word, size, syms, name, h, pos, i);
      r.Ok? && r.value.Some? ==> i <= r.value.value < |syms.names| && syms.names[r.value.value] == name
    decreases if i < |syms.names| then |syms.names| - i else 0, size - pos
  {
    if word(pos).Some? {
      if word(pos).value / 2 != h / 2 {
        WalkSound(word, size, syms, name, h, pos + 4, i + 1);
      } else if i < |syms.names| {
        WalkSound(word, size, syms, name, h, syms.after(i), i + 1);
      }
    }
  }

  /** The methods' view of the stream. */
  function Words(data: seq<byte>, littleEndian: bool): (word: nat -> Option<nat>)
    ensures Within(word, |data|)
  {
    (pos: nat) => WordAt(data, littleEndian, pos)
  }

  method ReadWord(stream: Stream, littleEndian: bool) returns (w: Option<nat>)
    modifies stream
    ensures w == WordAt(stream.data, littleEndian, old(stream.pos))
    ensures w.Some? ==> stream.pos == old(stream.pos) + 4
  {
    ghost var pos, rest := stream.pos, stream.Rest();
    var b := stream.Read(4);
    if pos + 4 <= |stream.data| { assert rest[..4] == stream.data[pos..pos + 4]; }
    if |b| < 4 { return None; }
    w := Some(Number(b, littleEndian));
  }

  /** `GNUHashTable.get_symbol`; the result is the symbol's index. */
  method GetSymbol(t: Table, stream: Stream, syms: Symbols, name: Name) returns (r: Result<Option<nat>, Error>)
    requires t.bits > 0
    modifies stream
    ensures r == Lookup(t, Words(stream.data, t.littleEndian), |stream.data|, syms, name)
  {
    var h := ComputeHash(name);
    if t.bloom == [] { return Err(ZeroDivision); }
    if !Matches(t.bloom, t.bits, t.shift, h) { return Ok(None); }
    if t.buckets == [] { return Err(ZeroDivision); }
    var i := t.buckets[h % |t.buckets|];
    if i < t.symoffset { return Ok(None); }
    r := WalkChain(t, stream, syms, name, h, i, Words(stream.data, t.littleEndian));
  }

  method WalkChain(t: Table, stream: Stream, syms: Symbols, name: Name, h: nat, start: nat, ghost word: nat -> Option<nat>)
    returns (r: Result<Option<nat>, Error>)
    requires start >= t.symoffset && Within(word, |stream.data|) && word == Words(stream.data, t.littleEndian)
    modifies stream
    ensures r == Walk(word, |stream.data|, syms, name, h, t.chainPos + 4 * (start - t.symoffset), start)
  {
    var i := start;
    stream.pos := t.chainPos + 4 * (start - t.symoffset);
    ghost var size := |stream.data|;
    ghost var result := Walk(word, size, syms, name, h, stream.pos, i);
    while true
      invariant result == Walk(word, size, syms, name, h, stream.pos, i)
      decreases if i < |syms.names| then |syms.names| - i else 0, size - stream.pos
    {
      var w := ReadWord(stream, t.littleEndian);
      if w.None? { return Err(ShortRead); }
      if w.value / 2 == h / 2 {
        if i >= |syms.names| { return Err(EndOfFile); }
        stream.pos := syms.after(i);
        if syms.names[i] == name { return Ok(Some(i)); }
      }
      if w.value % 2 == 1 { break; }
      i := i + 1;
    }
    return Ok(None);
  }

  // ----- the number of symbols -----

  function MaxOf(s: seq<nat>): (m: nat)
    requires s != []
    ensures m in s && forall x :: x in s ==> x <= m
  {
    if |s| == 1 then s[0]
    else
      var m := MaxOf(s[1..]);
      assert forall x :: x in s ==> x == s[0] || x in s[1..];
      if s[0] >= m then s[0] else m
  }

  /** The walk to the end of a chain. */
  ghost function CountFrom(word: nat -> Option<nat>, size: nat, pos: nat, i: nat): Result<nat, Error>
    requires Within(word, size)
    decreases size - pos
  {
    if word(pos).None? then Err(ShortRead)
    else if word(pos).value % 2 == 1 then Ok(i + 1)
    else CountFrom(word, size, pos + 4, i + 1)
  }

  ghost function Count(t: Table, word: nat -> Option<nat>, size: nat): Result<nat, Error>
    requires Within(word, size)
  {
    if t.buckets == [] then Err(EmptyMax)
    else
      var m := MaxOf(t.buckets);
      if m < t.symoffset then Ok(t.symoffset)
      else CountFrom(word, size, t.chainPos + 4 * (m - t.symoffset), m)
  }

  lemma {:induction false} LastChain(t: Table, word: nat -> Option<nat>, size: nat, names: seq<Name>, i: nat, pos: nat)
    requires Built(t, word, names) && Within(word, size) && t.symoffset <= i < |names|
    requires BucketOf(t, names[i]) == BucketOf(t, names[|names| - 1]) && pos == t.chainPos + 4 * (i - t.symoffset)
    ensures CountFrom(word, size, pos, i) == Ok(|names|)
    decreases |names| - i
  {
    assert WordFor(t, word, names, i);
    if i + 1 < |names| { LastChain(t, word, size, names, i + 1, pos + 4); }
  }

  /** On every correctly built table the count is one past the last hashed symbol. */
  lemma CountIsAll(t: Table, word: nat -> Option<nat>, size: nat, names: seq<Name>)
    requires Built(t, word, names) && Within(word, size)
    ensures Count(t, word, size) == Ok(|names|)
  {
    var m := MaxOf(t.buckets);
    var b :| 0 <= b < |t.buckets| && t.buckets[b] == m;
    assert BucketFor(t, names, b);
    if t.symoffset < |names| {
      var last := |names| - 1;
      var l := BucketOf(t, names[last]);
      assert BucketFor(t, names, l) && t.buckets[l] in t.buckets;
      LastChain(t, word, size, names, m, t.chainPos + 4 * (m - t.symoffset));
    }
  }

  /** `get_number_of_symbols`. */
  method GetNumberOfSymbols(t: Table, stream: Stream) returns (r: Result<nat, Error>)
    modifies stream
    ensures r == Count(t, Words(stream.data, t.littleEndian), |stream.data|)
  {
    if t.buckets == [] { return Err(EmptyMax); }
    var maxIdx: nat := MaxOf(t.buckets);
    if maxIdx < t.symoffset { return Ok(t.symoffset); }
    stream.pos := t.chainPos + 4 * (maxIdx - t.symoffset);
    ghost var word, size := Words(stream.data, t.littleEndian), |stream.data|;
    ghost var result := CountFrom(word, size, stream.pos, maxIdx);
    while true
      invariant result == CountFrom(word, size, stream.pos, maxIdx)
      decreases size - stream.pos
    {
      var w := ReadWord(stream, t.littleEndian);
      if w.None? { return Err(ShortRead); }
      if w.value % 2 == 1 { return Ok(maxIdx + 1); }
      maxIdx := maxIdx + 1;
    }
  }

  // ----- a chain that is not clean -----

  /** Two one-byte names whose hashes differ in the lowest bit only. */
  lemma TwoNames()
    ensures Hash([1]) == 177574 && Hash([2]) == 177575
  {
    assert [1][..0] == [] && [2][..0] == [];
  }

  lemma NumberOfFour(a: byte, b: byte, c: byte, d: byte)
    ensures Number([a, b, c, d], true) == a + 256 * (b + 256 * (c + 256 * d))
  {
    assert [a, b, c, d][1..] == [b, c, d] && [b, c, d][1..] == [c, d] && [c, d][1..] == [d] && [d][1..] == [];
    assert Number([d], true) == d;
    assert Number([c, d], true) == c + 256 * d;
  }

  /** The parameters (one bucket, symoffset 1, a one-word filter, shift 5), the filter, the bucket, two chain
      words, and the word 1. */
  function Sample(): seq<byte> {
    [1, 0, 0, 0, 1, 0, 0, 0, 1, 0, 0, 0, 5, 0, 0, 0] + [0xC0, 0x20, 0, 0] + [1, 0, 0, 0]
      + [0xA6, 0xB5, 2, 0] + [0xA7, 0xB5, 2, 0] + [1, 0, 0, 0]
  }

  lemma SampleWord(data: seq<byte>, p: nat, a: byte, b: byte, c: byte, d: byte)
    requires p + 4 <= |data| && data[p] == a && data[p + 1] == b && data[p + 2] == c && data[p + 3] == d
    ensures WordAt(data, true, p) == Some(a + 256 * (b + 256 * (c + 256 * d)))
  {
    NumberOfFour(a, b, c, d);
    assert data[p..p + 4] == [a, b, c, d];
  }

  lemma SampleWords(data: seq<byte>)
    requires data == Sample()
    ensures WordAt(data, true, 16) == Some(8384) && WordAt(data, true, 20) == Some(1)
    ensures WordAt(data, true, 24) == Some(177574) && WordAt(data, true, 28) == Some(177575) && WordAt(data, true, 32) == Some(1)
  {
    SampleWord(data, 16, 0xC0, 0x20, 0, 0);
    SampleWord(data, 20, 1, 0, 0, 0);
    SampleWord(data, 24, 0xA6, 0xB5, 2, 0);
    SampleWord(data, 28, 0xA7, 0xB5, 2, 0);
    SampleWord(data, 32, 1, 0, 0, 0);
  }

  lemma BitLater(w: nat, k: nat)
    requires k > 0
    ensures Bit(w, k) == Bit(w / 2, k - 1)
  {
  }

  lemma SampleFilter(h: nat)
    requires h == 177574 || h == 177575
    ensures Matches([8384], 32, 5, h)
  {
    assert h / 2 == 88787 && h % 32 == h - 177568;
    assert Shifted(h, 5) == Shifted(88787, 4);
    assert Shifted(88787, 4) == Shifted(44393, 3) == Shifted(22196, 2) == Shifted(11098, 1) == 5549;
    assert Bit(131, 0) && Bit(131, 1) && Bit(131, 7);
    SampleBits(0);
    SampleBits(1);
    SampleBits(7);
  }

  lemma SampleBits(k: nat)
    ensures Bit(8384, k + 6) == Bit(131, k)
  {
    BitLater(8384, k + 6);
    BitLater(4192, k + 5);
    BitLater(2096, k + 4);
    BitLater(1048, k + 3);
    BitLater(524, k + 2);
    BitLater(262, k + 1);
  }

  lemma SampleBuilt(t: Table, word: nat -> Option<nat>, names: seq<Name>)
    requires t == Table(1, [8384], 32, 5, [1], 24, true) && names == [[], [1], [2]]
    requires word(24) == Some(177574) && word(28) == Some(177575)
    ensures Built(t, word, names)
  {
    TwoNames();
    SampleFilter(177574);
    SampleFilter(177575);
    assert names[1] == [1] && names[2] == [2];
    assert WordFor(t, word, names, 1);
    assert WordFor(t, word, names, 2);
    assert BucketFor(t, names, 0);
  }

  lemma SampleMisses(t: Table, word: nat -> Option<nat>, size: nat, syms: Symbols)
    requires t == Table(1, [8384], 32, 5, [1], 24, true) && syms.names == [[], [1], [2]] && syms.after(1) == 32
    requires Within(word, size) && word(24) == Some(177574) && word(32) == Some(1)
    ensures Lookup(t, word, size, syms, [2]) == Ok(None) && Scan(syms.names, [2], 1) == Some(2)
  {
    TwoNames();
    SampleFilter(177575);
    var h := Hash([2]);
    assert Walk(word, size, syms, [2], h, 32, 2) == Ok(None);
    assert Walk(word, size, syms, [2], h, 24, 1) == Ok(None);
  }

  /** A correctly built table in a stream, and a name the scan finds and the lookup misses: the name before
      it in the chain shares the upper 31 bits, and looking that symbol up leaves the stream elsewhere. */
  lemma MissesAfterMove(data: seq<byte>) returns (t: Table, syms: Symbols, name: Name)
    requires data == Sample()
    ensures Built(t, Words(data, true), syms.names) && t.littleEndian && t.chainPos == 24
    ensures Scan(syms.names, name, t.symoffset) == Some(2)
    ensures Lookup(t, Words(data, true), |data|, syms, name) == Ok(None)
  {
    SampleWords(data);
    t, syms, name := Table(1, [8384], 32, 5, [1], 24, true), Symbols([[], [1], [2]], _ => 32), [2];
    SampleBuilt(t, Words(data, true), syms.names);
    SampleMisses(t, Words(data, true), |data|, syms);
  }
}
