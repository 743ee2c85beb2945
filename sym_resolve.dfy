/** The symbol resolver's reading helpers and per-file symbol cache: a
    tokenizer over a character stream whose token buffer grows by 1024
    bytes at a time, a skipper for runs of blank characters, and the
    cache of (file offset, symbol name) pairs that `nm -n` fills in
    ascending order and that lookups search by binary search. The stream
    is a sequence of bytes with a read position; EOF is -1. */
module SymResolve {
  import opened Options

  type Byte = x: int | 0 <= x < 256

  const EOF: int := -1

  /** strchr(s, c): c is converted to a char, and the terminating NUL of
      s is part of the string, so NUL always matches. */
  predicate StrChr(s: seq<Byte>, c: int)
  {
    c % 256 == 0 || c % 256 in s
  }

  /** The value of a byte read as a plain `char`, which is signed on
      x86-64: bytes from 0x80 on are negative. */
  function AsChar(b: Byte): (r: int)
    ensures -128 <= r < 128
    ensures r % 256 == b
  {
    if b < 128 then b else b - 256
  }

  /** A separator for fgettoken: equal to separators[0] read as a signed
      `char`, or found by strchr in the rest of the separators. */
  predicate IsSeparator(separators: seq<Byte>, c: int)
    requires |separators| >= 1
  {
    AsChar(separators[0]) == c || StrChr(separators[1..], c)
  }

  /** The input of a FILE opened for reading. */
  class Stream {
    const data: seq<Byte>
    var pos: nat

    constructor(data: seq<Byte>)
      ensures this.data == data && pos == 0
    {
      this.data := data;
      pos := 0;
    }

    /** getc: the next byte, or EOF once the data is used up. */
    method GetC() returns (c: int)
      modifies this
      ensures old(pos) < |data| ==> c == data[old(pos)] && pos == old(pos) + 1
      ensures old(pos) >= |data| ==> c == EOF && pos == old(pos)
    {
      if pos < |data| {
        c := data[pos];
        pos := pos + 1;
      } else {
        c := EOF;
      }
    }
  }

  // ---------------------------------------------------------------------
  // fgettoken

  /** The first index from k on that holds a separator, |data| if none. */
  function SeparatorAt(separators: seq<Byte>, data: seq<Byte>, k: nat): (j: nat)
    requires |separators| >= 1 && k <= |data|
    ensures k <= j <= |data|
    ensures j < |data| ==> IsSeparator(separators, data[j])
    ensures forall m :: k <= m < j ==> !IsSeparator(separators, data[m])
    decreases |data| - k
  {
    if k == |data| || IsSeparator(separators, data[k]) then k else SeparatorAt(separators, data, k + 1)
  }

  /** The buffer size after the token loop has stored a token of length
      t: a full buffer (index >= size) grows by 1024 before each read. */
  function Grown(maxSize: nat, t: nat): (m: nat)
  {
    if t < maxSize then maxSize else maxSize + 1024 * ((t - maxSize) / 1024 + 1)
  }

  /** The buffer only grows, in steps of 1024, and just enough to hold the
      token and its terminating NUL. */
  lemma GrownMeaning(maxSize: nat, t: nat)
    ensures Grown(maxSize, t) > t && Grown(maxSize, t) >= maxSize
    ensures (Grown(maxSize, t) - maxSize) % 1024 == 0
    ensures Grown(maxSize, t) == maxSize || Grown(maxSize, t) - 1024 <= t
  {
    if t >= maxSize {
      var k := (t - maxSize) / 1024 + 1;
      assert (t - maxSize) / 1024 * 1024 <= t - maxSize;
      assert Grown(maxSize, t) - maxSize == 1024 * k;
    }
  }

  /** One round of the loop: growth at index i keeps the buffer size at
      what a token ending at i would have made it. */
  lemma GrownStep(maxSize: nat, i: nat)
    requires i >= 1
    ensures var m := Grown(maxSize, i - 1);
      Grown(maxSize, i) == if i >= m then m + 1024 else m
  {
    var m := Grown(maxSize, i - 1);
    if i - 1 >= maxSize {
      var q := (i - 1 - maxSize) / 1024;
      if (i - maxSize) / 1024 != q {
        assert i - maxSize == 1024 * (q + 1);
      }
    }
  }

  /** The token buffer: a char array and its size, both updated when the
      array is reallocated. */
  class TokenBuffer {
    var buffer: array<Byte>
    var maxSize: nat

    predicate Valid()
      reads this
    {
      buffer.Length == maxSize && maxSize >= 1
    }

    constructor(size: nat)
      requires size >= 1
      ensures Valid() && maxSize == size && fresh(buffer)
    {
      buffer := new Byte[size];
      maxSize := size;
    }

    /** realloc to maxSize + 1024: the contents are kept. */
    method Grow()
      requires Valid()
      modifies this
      ensures Valid() && maxSize == old(maxSize) + 1024 && fresh(buffer)
      ensures buffer[..old(maxSize)] == old(buffer[..])
    {
      var grown := new Byte[maxSize + 1024];
      forall k | 0 <= k < maxSize {
        grown[k] := buffer[k];
      }
      buffer := grown;
      maxSize := maxSize + 1024;
    }

    /** The check at the top of the token loop: a buffer that index i
        would overflow grows once; what is stored before i is kept. */
    method Reserve(i: nat)
      requires Valid() && i <= maxSize
      modifies this
      ensures maxSize == if i >= old(maxSize) then old(maxSize) + 1024 else old(maxSize)
      ensures Valid() && buffer[..i] == old(buffer[..i])
      ensures buffer == old(buffer) || fresh(buffer)
    {
      if i >= maxSize {
        Grow();
      }
    }

    /** buffer[i] = c, seen as appending c to the first i bytes. */
    method Put(i: nat, c: Byte)
      requires Valid() && i < maxSize
      modifies buffer
      ensures buffer[..i + 1] == old(buffer[..i]) + [c]
    {
      buffer[i] := c;
    }
  }

  /** fgettoken: when firstChar is EOF or a separator the token is empty;
      otherwise firstChar and the bytes up to the next separator form the
      token, which is stored NUL-terminated, and the separator is handed
      back as the next first character. The end of the input before a
      separator ends the program ("Premature end of file"): None. */
  method FGetToken(input: Stream, b: TokenBuffer, separators: seq<Byte>, firstChar: int)
    returns (size: Option<nat>, nextChar: int)
    requires b.Valid() && |separators| >= 1 && (firstChar == EOF || 0 <= firstChar < 256)
    requires input.pos <= |input.data|
    modifies input, b, b.buffer
    ensures b.Valid()
    ensures firstChar == EOF || IsSeparator(separators, firstChar) ==>
      size == Some(0) && nextChar == firstChar && b.buffer == old(b.buffer) &&
      b.maxSize == old(b.maxSize) && b.buffer[0] == 0 && input.pos == old(input.pos)
    ensures firstChar != EOF && !IsSeparator(separators, firstChar) ==>
      var j := SeparatorAt(separators, input.data, old(input.pos));
      var t := 1 + j - old(input.pos);
      if j == |input.data| then
        size == None && input.pos == |input.data|
      else
        size == Some(t) && nextChar == input.data[j] && input.pos == j + 1 &&
        b.maxSize == Grown(old(b.maxSize), t) &&
        b.buffer[..t + 1] == [firstChar] + input.data[old(input.pos)..j] + [0]
  {
    nextChar := firstChar;
    if firstChar == EOF || AsChar(separators[0]) == firstChar || StrChr(separators[1..], firstChar) {
      b.buffer[0] := 0;
      return Some(0), nextChar;
    }
    b.buffer[0] := firstChar;
    size, nextChar := ReadToken(input, b, separators, firstChar);
  }

  /** The loop of fgettoken, once the first character is stored: read
      until a separator, growing the buffer whenever it is full. */
  method ReadToken(input: Stream, b: TokenBuffer, separators: seq<Byte>, firstChar: int)
    returns (size: Option<nat>, nextChar: int)
    requires b.Valid() && |separators| >= 1 && input.pos <= |input.data| && b.buffer[0] == firstChar
    modifies input, b, b.buffer
    ensures b.Valid()
    ensures var j := SeparatorAt(separators, input.data, old(input.pos));
      var t := 1 + j - old(input.pos);
      if j == |input.data| then
        size == None && input.pos == |input.data|
      else
        size == Some(t) && nextChar == input.data[j] && input.pos == j + 1 &&
        b.maxSize == Grown(old(b.maxSize), t) &&
        b.buffer[..t + 1] == [firstChar] + input.data[old(input.pos)..j] + [0]
  {
    nextChar := firstChar;
    ghost var start := input.pos;
    ghost var size0 := b.maxSize;
    var i: nat := 1;
    while true
      invariant b.Valid() && start <= input.pos <= |input.data| && i == 1 + input.pos - start
      invariant b.buffer == old(b.buffer) || fresh(b.buffer)
      invariant i - 1 < b.maxSize && b.maxSize == Grown(size0, i - 1)
      invariant b.buffer[..i] == [firstChar] + input.data[start..input.pos]
      invariant SeparatorAt(separators, input.data, start) == SeparatorAt(separators, input.data, input.pos)
      decreases |input.data| - input.pos
    {
      GrownStep(size0, i);
      b.Reserve(i);
      var c := input.GetC();
      if c == EOF {
        return None, nextChar;
      }
      if AsChar(separators[0]) == c || StrChr(separators[1..], c) {
        b.Put(i, 0);
        return Some(i), c;
      }
      b.Put(i, c);
      ReadOn(firstChar, input.data, start, input.pos - 1);
      i := i + 1;
    }
  }

  /** Reading one more byte extends the bytes read by it. */
  lemma ReadOn(first: Byte, data: seq<Byte>, start: nat, pos: nat)
    requires start <= pos < |data|
    ensures [first] + data[start..pos + 1] == ([first] + data[start..pos]) + [data[pos]]
  {
    assert data[start..pos + 1] == data[start..pos] + [data[pos]];
  }

  /** A token and the separator after it are exactly the bytes read: the
      token holds no separator, and putting the pieces back together gives
      the input. */
  lemma TokenSplitsInput(separators: seq<Byte>, data: seq<Byte>, k: nat)
    requires |separators| >= 1 && k <= |data|
    ensures var j := SeparatorAt(separators, data, k);
      j < |data| ==>
        data[k..] == data[k..j] + [data[j]] + data[j + 1..] &&
        forall m :: 0 <= m < j - k ==> !IsSeparator(separators, data[k..j][m])
  {
    var j := SeparatorAt(separators, data, k);
    if j < |data| {
      assert data[k..] == data[k..j] + data[j..];
      assert data[j..] == [data[j]] + data[j + 1..];
    }
  }

  /** A first separator byte from 0x80 on is a negative `char`, so it
      never equals a byte getc returns: only the rest of the separators
      can end a token then. */
  lemma HighFirstSeparatorIgnored(separators: seq<Byte>, c: Byte)
    requires |separators| >= 1 && separators[0] >= 128
    ensures IsSeparator(separators, c) <==> StrChr(separators[1..], c)
  {
  }

  /** A NUL byte ends a token whatever the separators are. */
  lemma NulAlwaysSeparates(separators: seq<Byte>, data: seq<Byte>, k: nat)
    requires |separators| >= 1 && k < |data| && data[k] == 0
    ensures SeparatorAt(separators, data, k) == k
  {
  }

  // ---------------------------------------------------------------------
  // skipchars

  /** The first index from k on whose byte strchr does not find in
      skipped, |data| if none. */
  function SkipEnd(skipped: seq<Byte>, data: seq<Byte>, k: nat): (j: nat)
    requires k <= |data|
    ensures k <= j <= |data|
    ensures j < |data| ==> !StrChr(skipped, data[j])
    ensures forall m :: k <= m < j ==> StrChr(skipped, data[m])
    decreases |data| - k
  {
    if k < |data| && StrChr(skipped, data[k]) then SkipEnd(skipped, data, k + 1) else k
  }

  /** skipchars: while strchr finds the current character in skipped, read
      the next one. EOF reads as '\xff' to strchr, so the loop ends at the
      end of the input unless skipped holds that byte. */
  method SkipChars(input: Stream, skipped: seq<Byte>, nextChar: int) returns (c: int)
    requires 255 !in skipped && input.pos <= |input.data|
    modifies input
    ensures !StrChr(skipped, c)
    ensures !StrChr(skipped, nextChar) ==> c == nextChar && input.pos == old(input.pos)
    ensures StrChr(skipped, nextChar) ==>
      var j := SkipEnd(skipped, input.data, old(input.pos));
      if j < |input.data| then c == input.data[j] && input.pos == j + 1
      else c == EOF && input.pos == |input.data|
  {
    c := nextChar;
    ghost var start := input.pos;
    if !StrChr(skipped, c) {
      return;
    }
    while StrChr(skipped, c)
      invariant start <= input.pos <= |input.data|
      invariant StrChr(skipped, c) ==> forall m :: start <= m < input.pos ==> StrChr(skipped, input.data[m])
      invariant !StrChr(skipped, c) ==>
        start < input.pos && c == input.data[input.pos - 1] &&
        forall m :: start <= m < input.pos - 1 ==> StrChr(skipped, input.data[m])
      decreases |input.data| - input.pos
    {
      c := input.GetC();
      if c == EOF {
        assert c % 256 == 255;
        assert SkipEnd(skipped, input.data, start) == |input.data|;
        return;
      }
    }
    assert SkipEnd(skipped, input.data, start) == input.pos - 1;
  }

  // ---------------------------------------------------------------------
  // FileInfo's symbol cache

  type Offset = x: int | 0 <= x < 0x1_0000_0000_0000_0000

  datatype CacheItem = CacheItem(offset: Offset, name: string)

  /** Ascending by offset, as lower_bound and upper_bound need. */
  predicate Ascending(c: seq<CacheItem>)
  {
    forall i, j :: 0 <= i < j < |c| ==> c[i].offset <= c[j].offset
  }

  /** Strictly ascending: no offset appears twice. */
  predicate StrictlyAscending(c: seq<CacheItem>)
  {
    forall i, j :: 0 <= i < j < |c| ==> c[i].offset < c[j].offset
  }

  /** lower_bound on [lo, hi): the first position whose offset is not
      below off, found by halving the range. */
  function LowerBound(c: seq<CacheItem>, off: Offset, lo: nat, hi: nat): (i: nat)
    requires Ascending(c) && lo <= hi <= |c|
    requires forall k :: 0 <= k < lo ==> c[k].offset < off
    requires forall k :: hi <= k < |c| ==> c[k].offset >= off
    ensures lo <= i <= hi
    ensures forall k :: 0 <= k < i ==> c[k].offset < off
    ensures forall k :: i <= k < |c| ==> c[k].offset >= off
    decreases hi - lo
  {
    if lo == hi then lo
    else
      var mid := (lo + hi) / 2;
      if c[mid].offset < off then LowerBound(c, off, mid + 1, hi) else LowerBound(c, off, lo, mid)
  }

  /** upper_bound on [lo, hi): the first position whose offset is above
      off. */
  function UpperBound(c: seq<CacheItem>, off: Offset, lo: nat, hi: nat): (i: nat)
    requires Ascending(c) && lo <= hi <= |c|
    requires forall k :: 0 <= k < lo ==> c[k].offset <= off
    requires forall k :: hi <= k < |c| ==> c[k].offset > off
    ensures lo <= i <= hi
    ensures forall k :: 0 <= k < i ==> c[k].offset <= off
    ensures forall k :: i <= k < |c| ==> c[k].offset > off
    decreases hi - lo
  {
    if lo == hi then lo
    else
      var mid := (lo + hi) / 2;
      if c[mid].offset <= off then UpperBound(c, off, mid + 1, hi) else UpperBound(c, off, lo, mid)
  }

  /** The outcome of symbolByOffset as written: a null pointer, a name, or
      a read of the end() iterator. */
  datatype Lookup = Null | Name(name: string) | PastEnd

  /** symbolByOffset as written: when every cached offset is below the
      requested one, lower_bound returns end() and its OFFSET is read. */
  function SymbolByOffsetAsWritten(c: seq<CacheItem>, off: Offset): (r: Lookup)
    requires Ascending(c)
    ensures r == Null <==> c == []
    ensures r == PastEnd <==> c != [] && c[|c| - 1].offset < off
  {
    if c == [] then Null
    else
      var i := LowerBound(c, off, 0, |c|);
      if i == |c| then PastEnd
      else if c[i].offset == off then Name(c[i].name)
      else if i == 0 then Name(c[0].name)
      else Name(c[i - 1].name)
  }

  /** An offset past the last cached symbol reads end(). */
  lemma PastLastSymbolReadsEnd()
    ensures SymbolByOffsetAsWritten([CacheItem(16, "f")], 32) == PastEnd
  {
    var c := [CacheItem(16, "f")];
    assert LowerBound(c, 32, 0, 1) == 1;
  }

  /** The symbol an offset falls in: the last cached symbol that starts at
      or before it, or the first symbol for an offset below all of them;
      None for an empty cache. Past the last symbol it is the last one. */
  function SymbolByOffset(c: seq<CacheItem>, off: Offset): (r: Option<string>)
    requires Ascending(c)
    ensures r == None <==> c == []
  {
    if c == [] then None
    else
      var i := LowerBound(c, off, 0, |c|);
      if i < |c| && c[i].offset == off then Some(c[i].name)
      else if i == 0 then Some(c[0].name)
      else Some(c[i - 1].name)
  }

  /** The corrected lookup agrees with the code wherever the code reads a
      real entry. */
  lemma SymbolByOffsetAgrees(c: seq<CacheItem>, off: Offset)
    requires Ascending(c)
    ensures SymbolByOffsetAsWritten(c, off) != PastEnd ==>
      (SymbolByOffsetAsWritten(c, off) == Null <==> SymbolByOffset(c, off) == None) &&
      (SymbolByOffsetAsWritten(c, off).Name? ==> SymbolByOffset(c, off) == Some(SymbolByOffsetAsWritten(c, off).name))
  {
  }

  /** The entry at k is the last one that starts at or before off. */
  predicate Covers(c: seq<CacheItem>, k: nat, off: Offset)
    requires k < |c|
  {
    c[k].offset <= off && (k + 1 == |c| || off < c[k + 1].offset)
  }

  /** With distinct offsets, the name found is the one of the entry at
      the greatest offset not above off, or of the first entry when off
      lies below every offset. */
  lemma SymbolByOffsetMeaning(c: seq<CacheItem>, off: Offset)
    requires StrictlyAscending(c) && c != []
    ensures off < c[0].offset ==> SymbolByOffset(c, off) == Some(c[0].name)
    ensures forall k :: 0 <= k < |c| && Covers(c, k, off) ==> SymbolByOffset(c, off) == Some(c[k].name)
  {
    var i := LowerBound(c, off, 0, |c|);
    assert 0 < i ==> c[0].offset < off;
    forall k | 0 <= k < |c| && Covers(c, k, off)
      ensures SymbolByOffset(c, off) == Some(c[k].name)
    {
      if c[k].offset == off {
        assert i <= k;
      } else {
        assert i >= k + 1;
      }
      assert i == k || i == k + 1;
      assert SymbolByOffset(c, off) == Some(c[k].name);
    }
  }

  /** next: the first cached offset strictly above off, or 0 when there is
      none. */
  function Next(c: seq<CacheItem>, off: Offset): (r: Offset)
    requires Ascending(c)
    ensures r != 0 ==> r > off && exists k :: 0 <= k < |c| && c[k].offset == r
    ensures forall k :: 0 <= k < |c| && c[k].offset > off ==> r == 0 || r <= c[k].offset
    ensures (exists k :: 0 <= k < |c| && c[k].offset > off) ==> r > off
  {
    var i := UpperBound(c, off, 0, |c|);
    if i == |c| then 0 else c[i].offset
  }

  /** The per-file symbol cache, filled from `nm -t d -n` in ascending
      address order. */
  class FileInfo {
    var cache: seq<CacheItem>

    predicate Valid()
      reads this
    {
      StrictlyAscending(cache)
    }

    constructor()
      ensures Valid() && cache == []
    {
      cache := [];
    }

    /** Insertion of one symbol: a symbol at the offset of the last one
        replaces its name, any other is appended. nm -n lists symbols in
        ascending order, so offsets never decrease. */
    method Insert(offset: Offset, name: string)
      requires Valid() && (cache == [] || cache[|cache| - 1].offset <= offset)
      modifies this
      ensures Valid()
      ensures cache == InsertInto(old(cache), CacheItem(offset, name))
    {
      if |cache| > 0 && cache[|cache| - 1].offset == offset {
        cache := cache[..|cache| - 1] + [CacheItem(offset, name)];
      } else {
        cache := cache + [CacheItem(offset, name)];
      }
    }

    /** symbolByOffset over this file's cache, with the past-the-end read
        taken as the last symbol. */
    function SymbolAt(off: Offset): (r: Option<string>)
      requires Valid()
      reads this
      ensures r == None <==> cache == []
      ensures cache != [] && cache[|cache| - 1].offset <= off ==> r == Some(cache[|cache| - 1].name)
    {
      if cache != [] then
        SymbolByOffsetMeaning(cache, off);
        SymbolByOffset(cache, off)
      else
        None
    }

    /** next over this file's cache. */
    function NextOffset(off: Offset): (r: Offset)
      requires Valid()
      reads this
      ensures r != 0 ==> r > off
      ensures cache != [] && cache[|cache| - 1].offset <= off ==> r == 0
    {
      Next(cache, off)
    }
  }

  /** The cache after inserting x: a symbol at the offset of the last
      one replaces it, any other is appended. */
  function InsertInto(c: seq<CacheItem>, x: CacheItem): seq<CacheItem>
  {
    if c != [] && c[|c| - 1].offset == x.offset then c[..|c| - 1] + [x] else c + [x]
  }

  /** The cache that inserting the symbols in turn builds. */
  function Loaded(symbols: seq<CacheItem>): (c: seq<CacheItem>)
  {
    if symbols == [] then []
    else InsertInto(Loaded(symbols[..|symbols| - 1]), symbols[|symbols| - 1])
  }

  /** The last of a run of symbols at one offset: the name the cache
      keeps for it. */
  predicate LastAtOffset(symbols: seq<CacheItem>, k: nat)
    requires k < |symbols|
  {
    k + 1 == |symbols| || symbols[k + 1].offset != symbols[k].offset
  }

  /** Loading one more symbol inserts it into the cache loaded so far. */
  lemma LoadedSnoc(s: seq<CacheItem>, x: CacheItem)
    ensures Loaded(s + [x]) == InsertInto(Loaded(s), x)
  {
    assert (s + [x])[..|s|] == s;
  }

  /** A prefix of an ascending list is ascending. */
  lemma AscendingPrefix(s: seq<CacheItem>, n: nat)
    requires Ascending(s) && n <= |s|
    ensures Ascending(s[..n])
  {
    var t := s[..n];
    forall i, j | 0 <= i < j < |t| ensures t[i].offset <= t[j].offset {
      assert t[i] == s[i] && t[j] == s[j];
    }
  }

  lemma AscendingReplaceLast(p: seq<CacheItem>, x: CacheItem)
    requires StrictlyAscending(p) && p != [] && p[|p| - 1].offset == x.offset
    ensures StrictlyAscending(p[..|p| - 1] + [x])
  {
    var r := p[..|p| - 1] + [x];
    forall i, j | 0 <= i < j < |r|
      ensures r[i].offset < r[j].offset
    {
      assert r[i] == p[i];
      assert r[j].offset == p[j].offset;
    }
  }

  lemma AscendingAppend(p: seq<CacheItem>, x: CacheItem)
    requires StrictlyAscending(p) && (p == [] || p[|p| - 1].offset < x.offset)
    ensures StrictlyAscending(p + [x])
  {
    var r := p + [x];
    forall i, j | 0 <= i < j < |r|
      ensures r[i].offset < r[j].offset
    {
      assert r[i] == p[i];
      if j < |p| {
        assert r[j] == p[j];
      } else if i < |p| - 1 {
        assert p[i].offset < p[|p| - 1].offset;
      }
    }
  }

  /** The cache stays strictly ascending and ends with the symbol listed
      last. */
  lemma {:induction false} LoadedAscending(symbols: seq<CacheItem>)
    requires Ascending(symbols)
    ensures StrictlyAscending(Loaded(symbols))
    ensures symbols != [] ==> Loaded(symbols) != [] && Loaded(symbols)[|Loaded(symbols)| - 1] == symbols[|symbols| - 1]
    decreases |symbols|
  {
    if symbols != [] {
      var init := symbols[..|symbols| - 1];
      var x := symbols[|symbols| - 1];
      var p := Loaded(init);
      AscendingPrefix(symbols, |symbols| - 1);
      LoadedAscending(init);
      assert symbols == init + [x];
      LoadedSnoc(init, x);
      if p != [] && p[|p| - 1].offset == x.offset {
        AscendingReplaceLast(p, x);
      } else {
        if p != [] {
          assert p[|p| - 1] == init[|init| - 1] == symbols[|symbols| - 2];
        }
        AscendingAppend(p, x);
      }
    }
  }

  /** Every cached entry is one of the symbols listed. */
  lemma {:induction false} LoadedFromSymbols(symbols: seq<CacheItem>)
    ensures forall m :: 0 <= m < |Loaded(symbols)| ==> Loaded(symbols)[m] in symbols
    decreases |symbols|
  {
    if symbols != [] {
      var init := symbols[..|symbols| - 1];
      var x := symbols[|symbols| - 1];
      var p := Loaded(init);
      var c := Loaded(symbols);
      LoadedFromSymbols(init);
      assert symbols == init + [x];
      forall m | 0 <= m < |c| ensures c[m] in symbols {
        if m < |c| - 1 {
          assert c[m] == p[m];
          assert p[m] in init;
        } else {
          assert c[m] == x;
        }
      }
    }
  }

  /** The symbol listed last at each offset is cached. */
  lemma {:induction false} LoadedKeepsLast(symbols: seq<CacheItem>)
    requires Ascending(symbols)
    ensures forall k :: 0 <= k < |symbols| && LastAtOffset(symbols, k) ==> symbols[k] in Loaded(symbols)
    decreases |symbols|
  {
    if symbols != [] {
      var init := symbols[..|symbols| - 1];
      var x := symbols[|symbols| - 1];
      var p := Loaded(init);
      var c := Loaded(symbols);
      LoadedKeepsLast(init);
      forall k | 0 <= k < |symbols| && LastAtOffset(symbols, k)
        ensures symbols[k] in c
      {
        if k < |init| {
          assert symbols[k] == init[k];
          assert LastAtOffset(init, k);
          assert init[k].offset < x.offset by {
            assert symbols[k + 1].offset != symbols[k].offset;
            assert symbols[k].offset <= symbols[k + 1].offset <= x.offset;
          }
          var m :| 0 <= m < |p| && p[m] == init[k];
          assert c[m] == p[m];
        } else {
          assert c[|c| - 1] == x;
        }
      }
    }
  }

  /** Loading symbols listed in ascending order keeps one entry per
      offset, in strictly ascending order, and each entry is the symbol
      listed last at its offset. */
  lemma LoadedMeaning(symbols: seq<CacheItem>)
    requires Ascending(symbols)
    ensures var c := Loaded(symbols);
      StrictlyAscending(c) &&
      (symbols != [] ==> c != [] && c[|c| - 1] == symbols[|symbols| - 1]) &&
      (forall m :: 0 <= m < |c| ==> c[m] in symbols) &&
      (forall k :: 0 <= k < |symbols| && LastAtOffset(symbols, k) ==> symbols[k] in c)
  {
    LoadedAscending(symbols);
    LoadedFromSymbols(symbols);
    LoadedKeepsLast(symbols);
  }

  /** One round of the loading loop: the next symbol is inserted into
      the cache of the ones before it, at or after its last offset. */
  lemma LoadStep(symbols: seq<CacheItem>, i: nat)
    requires Ascending(symbols) && i < |symbols|
    ensures var x := symbols[i];
      x == CacheItem(x.offset, x.name) &&
      (i > 0 ==> symbols[i - 1].offset <= x.offset) &&
      Loaded(symbols[..i + 1]) == InsertInto(Loaded(symbols[..i]), x)
  {
    assert symbols[..i + 1] == symbols[..i] + [symbols[i]];
    LoadedSnoc(symbols[..i], symbols[i]);
  }

  /** Loading a list of symbols in ascending order, one Insert each. */
  method LoadSymbols(symbols: seq<CacheItem>) returns (f: FileInfo)
    requires Ascending(symbols)
    ensures f.Valid() && f.cache == Loaded(symbols)
  {
    f := new FileInfo();
    for i := 0 to |symbols|
      invariant f.cache == Loaded(symbols[..i])
      invariant f.Valid()
      invariant i > 0 ==> f.cache[|f.cache| - 1] == symbols[i - 1]
    {
      var x := symbols[i];
      ghost var before := f.cache;
      LoadStep(symbols, i);
      f.Insert(x.offset, x.name);
      assert f.cache == InsertInto(before, x);
    }
    assert symbols[..|symbols|] == symbols;
  }
}
