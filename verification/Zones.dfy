/** Safety zones (the -c control of src/mut.c): an object is given a marked word before and after it,
    and the marks are looked at when it is freed. */
module Zones {
  import opened Words
  import opened Memory
  import opened WordCopy
  import opened Processes

  const ZONE := 4
  const MARK: Word := 0xDEADBEEF

  datatype Producer = ByMalloc | ByCalloc | ByRealloc

  /** The size asked of the allocator for an object and its zones. */
  function RoundUp(size: Word): Word {
    Wrap(And(Wrap(size + ZONE - 1), Not(ZONE - 1)) + 2 * ZONE)
  }

  /** calloc is asked for whole words instead. */
  function Adjusted(p: Producer, size: Word): Word {
    if p.ByCalloc? then Wrap((size / ZONE + 1 + 2) * ZONE) else RoundUp(size)
  }

  // ---- installing and checking ------------------------------------------

  /** Where the second zone of a block is written. */
  function PostZone(raw: Word, adjusted: Word): Word {
    Wrap(raw + adjusted - ZONE)
  }

  /** Where the zones of an object are looked for. */
  function PreChecked(a: Word): Word {
    Wrap(a - ZONE)
  }

  function PostChecked(a: Word, size: Word): Word {
    Wrap(PreChecked(a) + RoundUp(size) - ZONE)
  }

  function Zoned(m: Memory, raw: Word, adjusted: Word, big: bool): Option<Memory> {
    var post := PostZone(raw, adjusted);
    if Mapped(m, raw) && Mapped(m, post) then Some(Poke(Poke(m, raw, Bytes(MARK, big)), post, Bytes(MARK, big)))
    else None
  }

  datatype Finding = Intact | Wum(zone: Word, value: Word) | Unreadable

  function WordFinding(m: Memory, a: Word, big: bool): Finding {
    if !Mapped(m, a) then Unreadable
    else if Number(Peek(m, a), big) != MARK then Wum(a, Number(Peek(m, a), big))
    else Intact
  }

  function Checked(m: Memory, a: Word, size: Word, big: bool): Finding {
    var pre := WordFinding(m, PreChecked(a), big);
    if pre.Intact? then WordFinding(m, PostChecked(a, size), big) else pre
  }

  datatype Installation = Installed(start: Word) | Refused | Misaligned

  /** Marks the zones of a block the target has just been given, and makes the call return the object
      between them. */
  method InstallZones(process: Process, raw: Word, adjusted: Word) returns (r: Installation)
    requires process.status == Stopped
    modifies process`data, process`regs, process`denials, process`refused
    ensures r.Installed? ==>
              && r.start == Wrap(raw + ZONE)
              && Zoned(old(process.data), raw, adjusted, process.bigEndian) == Some(process.data)
              && process.regs == old(process.regs).(eax := r.start)
    ensures r.Refused? ==>
              Zoned(old(process.data), raw, adjusted, process.bigEndian).None? || Denied(old(process.denials))
    ensures r.Misaligned? <==> !Aligned(raw) || (Mapped(old(process.data), raw) && !Aligned(PostZone(raw, adjusted)))
  {
    hide Peek, Poke, Bytes, Number, PostZone;
    if !Aligned(raw) {
      return Misaligned;
    }
    var post: Word := PostZone(raw, adjusted);
    var ok := process.WriteData(raw, MARK);
    if !ok {
      return Refused;
    }
    if !Aligned(post) {
      return Misaligned;
    }
    ok := process.WriteData(post, MARK);
    if !ok {
      return Refused;
    }
    ok := process.WriteResult(Wrap(raw + ZONE));
    if !ok {
      return Refused;
    }
    return Installed(Wrap(raw + ZONE));
  }

  /** Looks at the zones of an object that is being freed; `None` is the failed assertion on the
      alignment of the first. */
  method CheckZones(process: Process, a: Word, size: Word) returns (found: Option<Finding>)
    requires process.status == Stopped
    modifies process`refused
    ensures found == if Aligned(a) then Some(Checked(process.data, a, size, process.bigEndian)) else None
  {
    hide Peek, Number, Mapped, RoundUp;
    if !Aligned(PreChecked(a)) {
      return None;
    }
    var ok, value := process.ReadData(PreChecked(a));
    if !ok {
      return Some(Unreadable);
    }
    if value != MARK {
      return Some(Wum(PreChecked(a), value));
    }
    ok, value := process.ReadData(PostChecked(a, size));
    if !ok {
      return Some(Unreadable);
    }
    if value != MARK {
      return Some(Wum(PostChecked(a, size), value));
    }
    return Some(Intact);
  }

  // ---- arithmetic of the zones ------------------------------------------

  lemma MaskedLow(x: Word)
    ensures And(x, Not(ZONE - 1)) == x / 4 * 4
  {
    assert Pow2(1) == 2 && Pow2(2) == 4;
    Pow2Add(28, 2);
    Pow2Values();
    assert Pow2(30) == 0x4000_0000;
    hide And, Pow2, Rem;
    BitwiseSplit(x, Not(3), x / 4, x % 4, 0x3FFF_FFFF, 0, 2);
    AndZero(x % 4);
    AndLowMask(x / 4, 30);
    RemSmall(x / 4, 0x4000_0000);
  }

  lemma RoundUpValue(size: Word)
    ensures RoundUp(size) == Wrap(Ceiling(size) + 8)
  {
    MaskedLow(Wrap(size + 3));
    hide And;
    if size + 3 >= WORD {
      assert Wrap(size + 3) == size + 3 - WORD < 4;
    }
  }

  /** The checker looks at exactly the words the installer wrote - whatever the size, even if it wraps -
      except after a calloc of a multiple of four bytes, when it looks at the word after the object,
      one before the zone. */
  lemma SameZonesIff(p: Producer, size: Word, raw: Word)
    ensures PreChecked(Wrap(raw + ZONE)) == raw
    ensures PostChecked(Wrap(raw + ZONE), size) == PostZone(raw, Adjusted(p, size)) <==> !(p.ByCalloc? && size % 4 == 0)
    ensures p.ByCalloc? && size % 4 == 0 ==> PostChecked(Wrap(raw + ZONE), size) == Wrap(raw + ZONE + size)
  {
    RoundUpValue(size);
    hide RoundUp;
    PostCheckedAt(raw, size);
    if p.ByCalloc? {
      CallocPost(raw, size);
    } else {
      WrapSum(raw - ZONE, Ceiling(size) + 8);
      assert raw - ZONE + (Ceiling(size) + 8) == raw + Ceiling(size) + 4;
    }
  }

  lemma PostCheckedAt(raw: Word, size: Word)
    ensures PreChecked(Wrap(raw + ZONE)) == raw
    ensures PostChecked(Wrap(raw + ZONE), size) == Wrap(raw + Ceiling(size) + 4)
  {
    RoundUpValue(size);
    hide RoundUp;
    WrapSum(-ZONE, raw + ZONE);
    assert Wrap(raw) == raw;
    WrapSum(raw - ZONE, Ceiling(size) + 8);
  }

  lemma CallocPost(raw: Word, size: Word)
    ensures PostZone(raw, Adjusted(ByCalloc, size)) == Wrap(raw + size / 4 * 4 + 8)
    ensures size % 4 == 0 ==> Ceiling(size) == size
    ensures size % 4 != 0 ==> Ceiling(size) == size / 4 * 4 + 4
    ensures Wrap(raw + size + 4) != Wrap(raw + size + 8)
  {
    DifferentZones(raw + size + 4);
    CallocWords(size);
    hide Ceiling;
    WrapSum(raw - ZONE, (size / 4 + 3) * 4);
    hide Wrap;
    assert (size / 4 + 1 + 2) * ZONE == (size / 4 + 3) * 4;
    assert raw - ZONE + (size / 4 + 3) * 4 == raw + size / 4 * 4 + 8;
  }

  lemma DifferentZones(x: int)
    ensures Wrap(x) != Wrap(x + 4)
  {
  }

  /** The block asked for has room for both zones and the object between them exactly when rounding
      the size up does not wrap. */
  lemma RoomIff(p: Producer, size: Word)
    ensures Adjusted(p, size) >= size + 2 * ZONE <==>
            Ceiling(size) + (if p.ByCalloc? && size % 4 == 0 then 12 else 8) < WORD
  {
    RoundUpValue(size);
    hide RoundUp;
  }

  // ---- whole runs, memory being kept ------------------------------------

  /** A block the target was given: the object is the part after the first zone. */
  datatype Block = Block(raw: Word, size: Word, producer: Producer, freed: bool)

  function Extent(b: Block): Word {
    Adjusted(b.producer, b.size)
  }

  function ObjectAddr(b: Block): Word {
    Wrap(b.raw + ZONE)
  }

  predicate InBlock(b: Block, x: Word) {
    b.raw <= x < b.raw + Extent(b)
  }

  predicate InObject(b: Block, x: Word) {
    b.raw + ZONE <= x < b.raw + ZONE + b.size
  }

  /** A block in which the object and its zones have room, as an allocator places it. */
  predicate WellPlaced(b: Block) {
    Aligned(b.raw) && b.raw + Extent(b) <= WORD && b.size + 2 * ZONE <= Extent(b)
  }

  predicate Separate(b: Block, c: Block) {
    b.raw + Extent(b) <= c.raw || c.raw + Extent(c) <= b.raw
  }

  datatype State = State(m: Memory, blocks: seq<Block>)

  /** What happens between two looks at the state: the target is given a block in memory `m` and its
      zones are marked, or it writes, or it frees a block, which is zeroed if that is wanted, and the call
      is skipped. */
  datatype Move = Allocate(b: Block, m: Memory) | Write(m: Memory) | Free(i: nat)

  /** Outside all blocks the target may do as it likes, within them it writes its own live objects. */
  ghost predicate OwnWrites(blocks: seq<Block>, m: Memory, m': Memory) {
    && m.Keys <= m'.Keys
    && forall i, x {:trigger InBlock(blocks[i], x)} ::
         0 <= i < |blocks| && x in m && InBlock(blocks[i], x) && !(InObject(blocks[i], x) && !blocks[i].freed) ==>
           m'[x] == m[x]
  }

  /** The allocator hands out separate blocks of accessible memory, calloc zeroed ones, and touches no
      block it handed out before. */
  ghost predicate GoodBlock(s: State, b: Block, m: Memory) {
    && WellPlaced(b) && !b.freed
    && (forall i :: 0 <= i < |s.blocks| ==> Separate(s.blocks[i], b))
    && (forall x {:trigger InBlock(b, x)} :: InBlock(b, x) ==> x in m && (b.producer.ByCalloc? ==> m[x] == 0))
    && s.m.Keys <= m.Keys
    && (forall i, x {:trigger InBlock(s.blocks[i], x)} ::
          0 <= i < |s.blocks| && x in s.m && InBlock(s.blocks[i], x) ==> m[x] == s.m[x])
  }

  ghost predicate Allowed(s: State, mv: Move) {
    match mv
    case Allocate(b, m) => GoodBlock(s, b, m)
    case Write(m) => OwnWrites(s.blocks, s.m, m)
    case Free(i) => i < |s.blocks| && !s.blocks[i].freed
  }

  /** Marking a block; the words are accessible. */
  function Marked(m: Memory, b: Block, big: bool): Memory {
    match Zoned(m, b.raw, Extent(b), big) case Some(m') => m' case None => m
  }

  /** Memory once a freed block has been zeroed, with -z. */
  function Zeroed(m: Memory, b: Block, zero: bool, big: bool): Option<Memory> {
    if zero then Fill(m, ObjectAddr(b), ZEROS, b.size, big) else Some(m)
  }

  /** A freed object whose zones are not intact ends the run, and so does one that cannot be zeroed; the
      state stays as it was. */
  function Next(s: State, mv: Move, zero: bool, big: bool): State {
    match mv
    case Allocate(b, m) => State(Marked(m, b, big), s.blocks + [b])
    case Write(m) => s.(m := m)
    case Free(i) =>
      if i < |s.blocks| && Checked(s.m, ObjectAddr(s.blocks[i]), s.blocks[i].size, big).Intact? then
        match Zeroed(s.m, s.blocks[i], zero, big)
        case Some(m) => State(m, s.blocks[i := s.blocks[i].(freed := true)])
        case None => s
      else s
  }

  function After(m: Memory, moves: seq<Move>, zero: bool, big: bool): State {
    if moves == [] then State(m, [])
    else Next(After(m, moves[..|moves| - 1], zero, big), moves[|moves| - 1], zero, big)
  }

  ghost predicate Legal(m: Memory, moves: seq<Move>, zero: bool, big: bool) {
    moves == [] ||
    (&& Legal(m, moves[..|moves| - 1], zero, big)
     && Allowed(After(m, moves[..|moves| - 1], zero, big), moves[|moves| - 1]))
  }

  ghost predicate WordIs(m: Memory, a: Word, q: Quad) {
    Mapped(m, a) && Peek(m, a) == q
  }

  /** The word of a block that the checker looks at after the object. */
  function Behind(b: Block): Word {
    PostChecked(Wrap(b.raw + ZONE), b.size)
  }

  predicate Missed(b: Block) {
    b.producer.ByCalloc? && b.size % 4 == 0
  }

  /** The words the checker looks at: marks, except that the one behind a missed object is still zero. */
  ghost predicate Watched(m: Memory, b: Block, big: bool) {
    && WordIs(m, b.raw, Bytes(MARK, big))
    && WordIs(m, Behind(b), if Missed(b) then ZEROS else Bytes(MARK, big))
  }

  ghost predicate Accessible(m: Memory, b: Block) {
    forall x {:trigger InBlock(b, x)} :: InBlock(b, x) ==> x in m
  }

  ghost predicate Sound(s: State, big: bool) {
    && (forall i :: 0 <= i < |s.blocks| ==>
          WellPlaced(s.blocks[i]) && Accessible(s.m, s.blocks[i]) && Watched(s.m, s.blocks[i], big))
    && (forall i, j :: 0 <= i < j < |s.blocks| ==> Separate(s.blocks[i], s.blocks[j]))
  }

  /** Without wrapping. */
  lemma ExtentValue(b: Block)
    requires WellPlaced(b)
    ensures Extent(b) == Ceiling(b.size) + if Missed(b) then 12 else 8
    ensures b.size <= Ceiling(b.size) && (Missed(b) ==> Ceiling(b.size) == b.size)
  {
    RoundUpValue(b.size);
    CallocWords(b.size);
    hide RoundUp;
  }

  lemma CallocWords(size: Word)
    ensures size / 4 * 4 + 12 == Ceiling(size) + if size % 4 == 0 then 12 else 8
    ensures size <= Ceiling(size) < size + 4 && (size % 4 == 0 ==> Ceiling(size) == size)
  {
  }

  /** Both watched words lie in the block and outside the object. */
  lemma WatchedPlaces(b: Block)
    requires WellPlaced(b)
    ensures b.raw + 4 <= b.raw + ZONE + b.size <= Behind(b) && Behind(b) + 4 <= b.raw + Extent(b) <= WORD
    ensures Behind(b) == if Missed(b) then b.raw + ZONE + b.size else PostZone(b.raw, Extent(b))
    ensures PostZone(b.raw, Extent(b)) == b.raw + Extent(b) - 4
    ensures Missed(b) ==> Behind(b) + 4 <= PostZone(b.raw, Extent(b))
    ensures Behind(b) == b.raw + ZONE + Ceiling(b.size)
  {
    hide RoundUp, Adjusted, PostChecked, Wrap;
    ExtentValue(b);
    PostCheckedAt(b.raw, b.size);
    WrapSame(b.raw + Ceiling(b.size) + 4);
    WrapSame(b.raw + Extent(b) - ZONE);
  }

  /** A word none of whose bytes changes. */
  lemma WordStays(m: Memory, m': Memory, a: Word, q: Quad)
    requires WordIs(m, a, q) && m.Keys <= m'.Keys
    requires forall x: Word {:trigger m'[x]} :: a <= x < a + 4 && x in m ==> m'[x] == m[x]
    ensures WordIs(m', a, q)
  {
    var b: Word, c: Word, d: Word := a + 1, a + 2, a + 3;
    assert m'[a] == m[a] && m'[b] == m[b] && m'[c] == m[c] && m'[d] == m[d];
  }

  /** A block whose watched words do not change stays watched. */
  lemma WordsStay(m: Memory, m': Memory, b: Block, big: bool)
    requires Watched(m, b, big) && m.Keys <= m'.Keys
    requires forall x: Word {:trigger m'[x]} ::
               (b.raw <= x < b.raw + 4 || Behind(b) <= x < Behind(b) + 4) && x in m ==> m'[x] == m[x]
    ensures Watched(m', b, big)
  {
    hide WordIs, Behind, Extent;
    WordStays(m, m', b.raw, Bytes(MARK, big));
    WordStays(m, m', Behind(b), if Missed(b) then ZEROS else Bytes(MARK, big));
  }

  /** So does one outside whose object nothing in it changes. */
  lemma StaysWatched(m: Memory, m': Memory, b: Block, big: bool)
    requires WellPlaced(b) && Watched(m, b, big) && m.Keys <= m'.Keys
    requires forall x {:trigger InBlock(b, x)} :: x in m && InBlock(b, x) && !InObject(b, x) ==> m'[x] == m[x]
    ensures Watched(m', b, big)
  {
    WatchedPlaces(b);
    hide WordIs, Behind, Extent, Watched;
    forall x: Word {:trigger m'[x]} | (b.raw <= x < b.raw + 4 || Behind(b) <= x < Behind(b) + 4) && x in m
      ensures m'[x] == m[x]
    {
      assert InBlock(b, x) && !InObject(b, x);
    }
    WordsStay(m, m', b, big);
  }

  /** Zeroing an object changes nothing outside its block, nor the words looked at there. */
  lemma ZeroedBlock(m: Memory, b: Block, m': Memory, big: bool)
    requires WellPlaced(b) && Accessible(m, b) && Zeroed(m, b, true, big) == Some(m')
    ensures m'.Keys == m.Keys
    ensures forall x {:trigger m'[x]} :: x in m && !InBlock(b, x) ==> m'[x] == m[x]
    ensures forall x: Word {:trigger m'[x]} ::
              (b.raw <= x < b.raw + 4 || Behind(b) <= x < Behind(b) + 4) && x in m ==> m'[x] == m[x]
  {
    WatchedPlaces(b);
    ObjectRange(m, b);
    ZeroEffect(m, ObjectAddr(b), b.size, big);
    hide Fill, Ceiling, Merged, WellPlaced, Extent, Behind, ObjectAddr;
  }

  /** Zeroing a freed block changes no watched word, of its own or of another block. */
  lemma ZeroedStays(s: State, i: nat, m': Memory, big: bool)
    requires Sound(s, big) && i < |s.blocks| && Zeroed(s.m, s.blocks[i], true, big) == Some(m')
    ensures m'.Keys == s.m.Keys
    ensures forall j :: 0 <= j < |s.blocks| ==> Watched(m', s.blocks[j], big)
  {
    hide Zeroed, WellPlaced, Watched, Behind, InBlock;
    ZeroedBlock(s.m, s.blocks[i], m', big);
    forall j | 0 <= j < |s.blocks|
      ensures Watched(m', s.blocks[j], big)
    {
      if j == i {
        WordsStay(s.m, m', s.blocks[i], big);
      } else {
        OtherStays(s, i, j, m', big);
      }
    }
  }

  lemma OtherStays(s: State, i: nat, j: nat, m': Memory, big: bool)
    requires Sound(s, big) && i < |s.blocks| && j < |s.blocks| && j != i && m'.Keys == s.m.Keys
    requires forall x {:trigger m'[x]} :: x in s.m && !InBlock(s.blocks[i], x) ==> m'[x] == s.m[x]
    ensures Watched(m', s.blocks[j], big)
  {
    var b, c := s.blocks[i], s.blocks[j];
    hide WellPlaced, Watched, Extent;
    forall x {:trigger InBlock(c, x)} | x in s.m && InBlock(c, x)
      ensures m'[x] == s.m[x]
    {
      if i < j {
        SeparateBytes(b, c, x);
      } else {
        SeparateBytes(c, b, x);
      }
    }
    StaysWatched(s.m, m', c, big);
  }

  /** The words of an object lie in its block. */
  lemma ObjectRange(m: Memory, b: Block)
    requires WellPlaced(b) && Accessible(m, b)
    ensures Range(m, ObjectAddr(b), Ceiling(b.size))
    ensures ObjectAddr(b) == b.raw + ZONE && b.raw + ZONE + Ceiling(b.size) <= b.raw + Extent(b) <= WORD
  {
    ExtentValue(b);
    WrapSame(b.raw + ZONE);
    hide Extent, Ceiling, Wrap;
    forall x: Word {:trigger x in m} | b.raw + ZONE <= x < b.raw + ZONE + Ceiling(b.size)
      ensures x in m
    {
      assert InBlock(b, x);
    }
  }

  /** Marking a block makes it watched and touches no other. */
  lemma MarkedBlock(m: Memory, b: Block, big: bool)
    requires WellPlaced(b)
    requires forall x {:trigger InBlock(b, x)} :: InBlock(b, x) ==> x in m && (b.producer.ByCalloc? ==> m[x] == 0)
    ensures Marked(m, b, big).Keys == m.Keys && Watched(Marked(m, b, big), b, big)
    ensures forall x {:trigger Marked(m, b, big)[x]} :: x in m && !InBlock(b, x) ==> Marked(m, b, big)[x] == m[x]
  {
    WatchedPlaces(b);
    var post, gap := PostZone(b.raw, Extent(b)), Behind(b);
    hide Behind, Extent, PostZone, Bytes, Poke, Peek, Mapped;
    BlockWord(m, b, b.raw);
    BlockWord(m, b, post);
    BlockWord(m, b, gap);
    TwoPokes(m, b.raw, post, Bytes(MARK, big), gap);
    hide InBlock;
    forall x | x in m && !InBlock(b, x)
      ensures !(b.raw <= x < b.raw + 4) && !(post <= x < post + 4)
    {
      Outside(b, post, x);
    }
  }

  lemma Outside(b: Block, post: Word, x: Word)
    requires !InBlock(b, x) && b.raw <= post && b.raw + 4 <= b.raw + Extent(b) && post + 4 <= b.raw + Extent(b)
    ensures !(b.raw <= x < b.raw + 4) && !(post <= x < post + 4)
  {
  }

  /** Two pokes seen at their words, at a third one and everywhere else. */
  lemma TwoPokes(m: Memory, a: Word, b: Word, q: Quad, c: Word)
    requires Mapped(m, a) && Mapped(m, b) && Mapped(m, c) && Apart(a, b)
    ensures Mapped(Poke(m, a, q), b)
    ensures var m' := Poke(Poke(m, a, q), b, q);
            && m'.Keys == m.Keys && WordIs(m', a, q) && WordIs(m', b, q)
            && (Apart(a, c) && Apart(b, c) ==> WordIs(m', c, Peek(m, c)))
            && forall x {:trigger m'[x]} :: x in m && !(a <= x < a + 4) && !(b <= x < b + 4) ==> m'[x] == m[x]
  {
    var m1 := Poke(m, a, q);
    PeekPoke(m, a, q, b);
    PeekPoke(m, a, q, a);
    PeekPoke(m, a, q, c);
    PeekPoke(m1, b, q, a);
    PeekPoke(m1, b, q, b);
    PeekPoke(m1, b, q, c);
    hide Poke, Peek, Mapped;
  }

  lemma BlockMapped(m: Memory, b: Block, a: Word)
    requires b.raw <= a && a + 4 <= b.raw + Extent(b) <= WORD && Accessible(m, b)
    ensures Mapped(m, a)
  {
    hide Extent;
    var c: Word, d: Word, e: Word := a + 1, a + 2, a + 3;
    assert InBlock(b, a) && InBlock(b, c) && InBlock(b, d) && InBlock(b, e);
  }

  lemma BlockWord(m: Memory, b: Block, a: Word)
    requires b.raw <= a && a + 4 <= b.raw + Extent(b) <= WORD
    requires forall x {:trigger InBlock(b, x)} :: InBlock(b, x) ==> x in m && (b.producer.ByCalloc? ==> m[x] == 0)
    ensures Mapped(m, a) && (b.producer.ByCalloc? ==> Peek(m, a) == ZEROS)
  {
    hide Extent;
    var c: Word, d: Word, e: Word := a + 1, a + 2, a + 3;
    assert InBlock(b, a) && InBlock(b, c) && InBlock(b, d) && InBlock(b, e);
  }

  lemma SeparateBytes(b: Block, c: Block, x: Word)
    requires Separate(b, c)
    ensures InBlock(b, x) ==> !InBlock(c, x)
  {
  }

  lemma MoveSound(s: State, mv: Move, zero: bool, big: bool)
    requires Sound(s, big) && Allowed(s, mv)
    ensures Sound(Next(s, mv, zero, big), big)
  {
    hide WellPlaced, Accessible, Watched, Separate, Checked, Zeroed;
    match mv {
      case Allocate(b, m) =>
        AllocateSound(s, b, m, big);
      case Write(m) =>
        WriteSound(s, m, big);
      case Free(i) =>
        var m' := Zeroed(s.m, s.blocks[i], zero, big);
        if m'.Some? {
          FreeSound(s, i, m'.value, zero, big);
        }
    }
  }

  lemma FreeSound(s: State, i: nat, m': Memory, zero: bool, big: bool)
    requires Sound(s, big) && i < |s.blocks| && Zeroed(s.m, s.blocks[i], zero, big) == Some(m')
    ensures Sound(State(m', s.blocks[i := s.blocks[i].(freed := true)]), big)
  {
    if zero {
      ZeroedStays(s, i, m', big);
    }
    hide WellPlaced, Watched, Separate, Zeroed;
    var freed := s.blocks[i].(freed := true);
    FreedSame(m', s.blocks[i], big);
    forall j | 0 <= j < |s.blocks| && j != i
      ensures Separate(s.blocks[j], freed) <==> Separate(s.blocks[j], s.blocks[i])
      ensures Separate(freed, s.blocks[j]) <==> Separate(s.blocks[i], s.blocks[j])
    {
      FreedSeparate(s.blocks[j], s.blocks[i]);
    }
  }

  lemma FreedSame(m: Memory, b: Block, big: bool)
    ensures WellPlaced(b.(freed := true)) == WellPlaced(b)
    ensures Watched(m, b.(freed := true), big) == Watched(m, b, big)
    ensures Accessible(m, b.(freed := true)) == Accessible(m, b)
  {
    hide WordIs, PostChecked, Adjusted, Bytes;
    var c := b.(freed := true);
    forall x {:trigger InBlock(b, x)} {:trigger InBlock(c, x)}
      ensures InBlock(b, x) <==> InBlock(c, x)
    {
    }
  }

  lemma FreedSeparate(b: Block, c: Block)
    ensures Separate(b, c.(freed := true)) == Separate(b, c)
    ensures Separate(c.(freed := true), b) == Separate(c, b)
  {
    hide Adjusted;
  }

  lemma AllocateSound(s: State, b: Block, m: Memory, big: bool)
    requires Sound(s, big) && GoodBlock(s, b, m)
    ensures Sound(State(Marked(m, b, big), s.blocks + [b]), big)
  {
    hide WellPlaced, Watched, Separate, Marked;
    MarkedBlock(m, b, big);
    var m' := Marked(m, b, big);
    forall i | 0 <= i < |s.blocks|
      ensures Watched(m', s.blocks[i], big) && Accessible(m', s.blocks[i])
    {
      OtherBlock(s, b, m, m', i, big);
    }
    hide GoodBlock, InBlock;
  }

  lemma WriteSound(s: State, m: Memory, big: bool)
    requires Sound(s, big) && OwnWrites(s.blocks, s.m, m)
    ensures Sound(State(m, s.blocks), big)
  {
    hide WellPlaced, Watched, Separate, InBlock, InObject;
    forall i | 0 <= i < |s.blocks|
      ensures Watched(m, s.blocks[i], big)
    {
      StaysWatched(s.m, m, s.blocks[i], big);
    }
  }

  lemma OtherBlock(s: State, b: Block, m: Memory, m': Memory, i: nat, big: bool)
    requires i < |s.blocks| && WellPlaced(s.blocks[i]) && Watched(s.m, s.blocks[i], big) && GoodBlock(s, b, m)
    requires m'.Keys == m.Keys && forall x {:trigger m'[x]} :: x in m && !InBlock(b, x) ==> m'[x] == m[x]
    ensures Watched(m', s.blocks[i], big)
  {
    hide Extent;
    var c := s.blocks[i];
    forall x {:trigger InBlock(c, x)} | x in s.m && InBlock(c, x)
      ensures m'[x] == s.m[x]
    {
      SeparateBytes(c, b, x);
      assert InBlock(s.blocks[i], x);
    }
    StaysWatched(s.m, m', c, big);
  }

  lemma {:induction false} RunSound(m: Memory, moves: seq<Move>, zero: bool, big: bool)
    requires Legal(m, moves, zero, big)
    ensures Sound(After(m, moves, zero, big), big)
  {
    if moves != [] {
      RunSound(m, moves[..|moves| - 1], zero, big);
      MoveSound(After(m, moves[..|moves| - 1], zero, big), moves[|moves| - 1], zero, big);
    }
  }

  /** Intact zones, except that an object from a calloc of a multiple of four bytes is reported, with
      the zero word behind it. */
  function Expected(b: Block): Finding {
    if b.producer.ByCalloc? && b.size % 4 == 0 then Wum(Wrap(ObjectAddr(b) + b.size), 0) else Intact
  }

  /** Over every run of a target that writes only inside its own live objects, that is what checking
      an object finds. */
  lemma WumIff(m: Memory, moves: seq<Move>, i: nat, zero: bool, big: bool)
    requires Legal(m, moves, zero, big) && i < |After(m, moves, zero, big).blocks|
    ensures var s := After(m, moves, zero, big);
            Checked(s.m, ObjectAddr(s.blocks[i]), s.blocks[i].size, big) == Expected(s.blocks[i])
  {
    RunSound(m, moves, zero, big);
    hide Legal, After, Watched, WellPlaced, Separate, Checked, Expected, ObjectAddr;
    WatchedChecked(After(m, moves, zero, big).m, After(m, moves, zero, big).blocks[i], big);
  }

  // ---- damage -----------------------------------------------------------

  /** Where the second word looked at lies. */
  function SecondWord(b: Block): int {
    b.raw + ZONE + Ceiling(b.size)
  }

  /** Checking the object of a block finds it intact exactly when the first word of the block and the word
      behind the object both hold the mark, and otherwise names the first of them that does not. */
  lemma CheckedWords(m: Memory, b: Block, big: bool)
    requires WellPlaced(b) && Accessible(m, b)
    ensures SecondWord(b) < WORD && Mapped(m, b.raw) && Mapped(m, SecondWord(b))
    ensures var first, second := Number(Peek(m, b.raw), big), Number(Peek(m, SecondWord(b)), big);
            var found := Checked(m, ObjectAddr(b), b.size, big);
            && (found == Intact <==> first == 0xDEADBEEF && second == 0xDEADBEEF)
            && (first != 0xDEADBEEF ==> found == Wum(b.raw, first))
            && (first == 0xDEADBEEF && second != 0xDEADBEEF ==> found == Wum(SecondWord(b), second))
  {
    hide Extent, Ceiling, Mapped, Peek, Number, Wrap, RoundUp, WordFinding, Bytes, Missed, Watched, Accessible;
    SecondIs(b);
    BlockWords(m, b);
    WordChecked(m, b.raw, Peek(m, b.raw), big);
    WordChecked(m, SecondWord(b), Peek(m, SecondWord(b)), big);
  }

  /** Where the checker looks. */
  lemma SecondIs(b: Block)
    requires WellPlaced(b)
    ensures b.raw + 4 <= b.raw + Extent(b) <= WORD && SecondWord(b) + 4 <= b.raw + Extent(b)
    ensures PreChecked(ObjectAddr(b)) == b.raw && PostChecked(ObjectAddr(b), b.size) == SecondWord(b)
  {
    hide Extent, Ceiling, RoundUp, Wrap, Missed;
    WatchedPlaces(b);
    PostCheckedAt(b.raw, b.size);
  }

  lemma BlockWords(m: Memory, b: Block)
    requires WellPlaced(b) && Accessible(m, b)
    ensures SecondWord(b) < WORD && Mapped(m, b.raw) && Mapped(m, SecondWord(b))
  {
    hide Extent, Ceiling, Mapped;
    SecondIs(b);
    BlockMapped(m, b, b.raw);
    BlockMapped(m, b, SecondWord(b));
  }

  /** A move of a target that may write anywhere. */
  ghost predicate Possible(s: State, mv: Move) {
    if mv.Write? then s.m.Keys <= mv.m.Keys else Allowed(s, mv)
  }

  ghost predicate Wild(m: Memory, moves: seq<Move>, zero: bool, big: bool) {
    moves == [] ||
    (&& Wild(m, moves[..|moves| - 1], zero, big)
     && Possible(After(m, moves[..|moves| - 1], zero, big), moves[|moves| - 1]))
  }

  ghost predicate Placed(s: State) {
    forall i :: 0 <= i < |s.blocks| ==> WellPlaced(s.blocks[i]) && Accessible(s.m, s.blocks[i])
  }

  lemma {:induction false} WildPlaced(m: Memory, moves: seq<Move>, zero: bool, big: bool)
    requires Wild(m, moves, zero, big)
    ensures Placed(After(m, moves, zero, big))
  {
    if moves != [] {
      WildPlaced(m, moves[..|moves| - 1], zero, big);
      MovePlaced(After(m, moves[..|moves| - 1], zero, big), moves[|moves| - 1], zero, big);
    }
  }

  lemma MovePlaced(s: State, mv: Move, zero: bool, big: bool)
    requires Placed(s) && Possible(s, mv)
    ensures Placed(Next(s, mv, zero, big))
  {
    hide WellPlaced, Watched, Separate, Checked, Zeroed, Marked, InBlock;
    match mv {
      case Allocate(b, m) =>
        MarkedBlock(m, b, big);
        forall i | 0 <= i < |s.blocks|
          ensures Accessible(m, s.blocks[i])
        {
        }
      case Write(m) =>
      case Free(i) =>
        var m' := Zeroed(s.m, s.blocks[i], zero, big);
        if m'.Some? {
          FreedSame(m'.value, s.blocks[i], big);
          ZeroedKeys(s.m, s.blocks[i], m'.value, zero, big);
        }
    }
  }

  lemma ZeroedKeys(m: Memory, b: Block, m': Memory, zero: bool, big: bool)
    requires WellPlaced(b) && Accessible(m, b) && Zeroed(m, b, zero, big) == Some(m')
    ensures m'.Keys == m.Keys
  {
    if zero {
      ZeroedBlock(m, b, m', big);
    }
  }

  /** The block that move `k` allocates stays where it is, whatever happens to it. */
  lemma {:induction false} BlockStays(m: Memory, moves: seq<Move>, k: nat, zero: bool, big: bool)
    requires k < |moves| && moves[k].Allocate?
    ensures var i := |After(m, moves[..k], zero, big).blocks|; SameBlock(After(m, moves, zero, big), i, moves[k].b)
    decreases |moves|
  {
    hide Next, SameBlock;
    var before := moves[..|moves| - 1];
    var s := After(m, before, zero, big);
    if k < |before| {
      BlockStays(m, before, k, zero, big);
      assert before[..k] == moves[..k];
      BlockKept(s, moves[|moves| - 1], |After(m, moves[..k], zero, big).blocks|, moves[k].b, zero, big);
    } else {
      assert moves[..k] == before;
      BlockEntered(s, moves[k], zero, big);
    }
  }

  /** Block `i` is `b`, whether freed or not. */
  ghost predicate SameBlock(s: State, i: nat, b: Block) {
    i < |s.blocks| && s.blocks[i].(freed := b.freed) == b
  }

  lemma BlockKept(s: State, mv: Move, i: nat, b: Block, zero: bool, big: bool)
    requires SameBlock(s, i, b)
    ensures SameBlock(Next(s, mv, zero, big), i, b)
  {
    hide Checked, Zeroed, Marked;
  }

  lemma BlockEntered(s: State, mv: Move, zero: bool, big: bool)
    requires mv.Allocate?
    ensures SameBlock(Next(s, mv, zero, big), |s.blocks|, mv.b)
  {
    hide Marked;
  }

  /** Over every run of a target that writes wherever it likes, an object not from a calloc of a multiple of
      four bytes is found intact exactly when both its zone words are as they were when it was allocated. */
  lemma DamageReported(m: Memory, moves: seq<Move>, k: nat, zero: bool, big: bool)
    requires Wild(m, moves, zero, big) && k < |moves| && moves[k].Allocate? && !Missed(moves[k].b)
    ensures var m1, m2, b := After(m, moves[..k + 1], zero, big).m, After(m, moves, zero, big).m, moves[k].b;
            && WellPlaced(b) && Accessible(m1, b) && Accessible(m2, b) && SecondWord(b) < WORD
            && Mapped(m1, b.raw) && Mapped(m2, b.raw) && Mapped(m1, SecondWord(b)) && Mapped(m2, SecondWord(b))
            && (Checked(m2, ObjectAddr(b), b.size, big) == Intact <==>
                Peek(m2, b.raw) == Peek(m1, b.raw) && Peek(m2, SecondWord(b)) == Peek(m1, SecondWord(b)))
  {
    hide Wild, After, WellPlaced, Accessible, Checked, Mapped, Peek, Watched, Marked;
    var b, m1, m2 := moves[k].b, After(m, moves[..k + 1], zero, big).m, After(m, moves, zero, big).m;
    AllocatedMarked(m, moves, k, zero, big);
    StillThere(m, moves, k, zero, big);
    CheckedWords(m1, b, big);
    CheckedWords(m2, b, big);
    MarksAre(m1, b, big);
    MarkOf(Peek(m2, b.raw), big);
    MarkOf(Peek(m2, SecondWord(b)), big);
  }

  /** A word is the mark exactly when it reads so. */
  lemma MarkOf(q: Quad, big: bool)
    ensures Number(q, big) == 0xDEADBEEF <==> q == Bytes(MARK, big)
  {
    NumberRoundTrip(q, big);
    MarkNumbers(big);
    hide Number, Bytes;
  }

  lemma MarksAre(m: Memory, b: Block, big: bool)
    requires WellPlaced(b) && Watched(m, b, big) && !Missed(b) && SecondWord(b) < WORD
    ensures Mapped(m, b.raw) && Peek(m, b.raw) == Bytes(MARK, big)
    ensures Mapped(m, SecondWord(b)) && Peek(m, SecondWord(b)) == Bytes(MARK, big)
  {
    hide Bytes, Peek, Mapped;
    WatchedPlaces(b);
  }

  lemma {:induction false} WildPrefix(m: Memory, moves: seq<Move>, k: nat, zero: bool, big: bool)
    requires Wild(m, moves, zero, big) && k <= |moves|
    ensures Wild(m, moves[..k], zero, big)
    decreases |moves|
  {
    if k < |moves| {
      WildPrefix(m, moves[..|moves| - 1], k, zero, big);
      assert moves[..|moves| - 1][..k] == moves[..k];
    } else {
      assert moves[..k] == moves;
    }
  }

  lemma AllocatedMarked(m: Memory, moves: seq<Move>, k: nat, zero: bool, big: bool)
    requires Wild(m, moves, zero, big) && k < |moves| && moves[k].Allocate?
    ensures var s := After(m, moves[..k + 1], zero, big);
            WellPlaced(moves[k].b) && Accessible(s.m, moves[k].b) && Watched(s.m, moves[k].b, big)
  {
    hide WellPlaced, Watched, Marked, InBlock, Separate;
    WildPrefix(m, moves, k + 1, zero, big);
    assert moves[..k + 1][..k] == moves[..k];
    MarkedBlock(moves[k].m, moves[k].b, big);
  }

  lemma StillThere(m: Memory, moves: seq<Move>, k: nat, zero: bool, big: bool)
    requires Wild(m, moves, zero, big) && k < |moves| && moves[k].Allocate?
    ensures Accessible(After(m, moves, zero, big).m, moves[k].b)
  {
    hide After, Wild;
    WildPlaced(m, moves, zero, big);
    BlockStays(m, moves, k, zero, big);
    var s, i, b := After(m, moves, zero, big), |After(m, moves[..k], zero, big).blocks|, moves[k].b;
    var c := s.blocks[i];
    forall x {:trigger InBlock(b, x)} | InBlock(b, x)
      ensures x in s.m
    {
      assert InBlock(c, x);
    }
  }

  /** A run in which an object is reported that nothing was written outside of: one calloc of four bytes. */
  lemma UntouchedReported(big: bool)
    ensures var m, b := Filled(0, 64), Block(0, 4, ByCalloc, false);
            && Legal(m, [Allocate(b, m)], false, big) && After(m, [Allocate(b, m)], false, big).blocks == [b]
            && Checked(After(m, [Allocate(b, m)], false, big).m, ObjectAddr(b), b.size, big) == Wum(8, 0)
  {
    var m, b := Filled(0, 64), Block(0, 4, ByCalloc, false);
    var moves := [Allocate(b, m)];
    assert moves[..|moves| - 1] == [];
    FirstBlockGood();
    assert ObjectAddr(b) == 4 && Expected(b) == Wum(8, 0);
    hide Filled, GoodBlock, Marked, Checked, Expected, ObjectAddr;
    assert After(m, [], false, big) == State(m, []);
    assert Legal(m, [], false, big);
    assert Allowed(State(m, []), moves[0]);
    WumIff(m, moves, 0, false, big);
  }

  lemma FirstBlockGood()
    ensures GoodBlock(State(Filled(0, 64), []), Block(0, 4, ByCalloc, false), Filled(0, 64))
  {
    var b := Block(0, 4, ByCalloc, false);
    assert Extent(b) == 16 && b.size + 2 * ZONE <= 16;
    hide Extent;
  }

  lemma WatchedChecked(m: Memory, b: Block, big: bool)
    requires Watched(m, b, big)
    ensures Checked(m, ObjectAddr(b), b.size, big) == Expected(b)
  {
    SameZonesIff(b.producer, b.size, b.raw);
    WrapSum(b.size, b.raw + ZONE);
    MarkNumbers(big);
    hide PostChecked, PreChecked, WordFinding, WordIs, Bytes, Number, Wrap, Adjusted;
    var a := ObjectAddr(b);
    WordChecked(m, PreChecked(a), Bytes(MARK, big), big);
    WordChecked(m, PostChecked(a, b.size), if Missed(b) then ZEROS else Bytes(MARK, big), big);
  }

  lemma MarkNumbers(big: bool)
    ensures Number(ZEROS, big) == 0 && Number(Bytes(MARK, big), big) == MARK
  {
  }

  lemma WordChecked(m: Memory, a: Word, q: Quad, big: bool)
    requires WordIs(m, a, q)
    ensures WordFinding(m, a, big) == if Number(q, big) == MARK then Intact else Wum(a, Number(q, big))
  {
  }
}
