/** Reading a whole kernel file into a reusable buffer (`read_into` and
    `ProcFile` in src/core/collectors/procfs.rs). */
module ProcFile {
  import opened Basics
  import opened Utf8

  const CHUNK: nat := 8192

  datatype ReadError = Io | InvalidData

  type Done = Result<(), ReadError>

  /** An open file. A read may deliver any non-empty part of what is left, or
      fail; it delivers nothing only at the end. */
  class File {
    const content: bytes
    var pos: nat
    var failed: bool

    ghost predicate InRange()
      reads this
    {
      pos <= |content|
    }

    /** Just opened. */
    ghost predicate Fresh()
      reads this
    {
      pos == 0 && !failed
    }

    constructor (content: bytes)
      ensures this.content == content && Fresh()
    {
      this.content := content;
      pos := 0;
      failed := false;
    }

    method Read(room: nat) returns (r: Result<bytes, ReadError>)
      requires InRange() && 0 < room
      modifies this
      ensures InRange() && failed == (old(failed) || r.Err?)
      ensures r.Err? ==> r.error == Io && pos == old(pos)
      ensures r.Ok? ==> |r.value| <= room && pos == old(pos) + |r.value| && r.value == content[old(pos)..pos]
      ensures r.Ok? && r.value == [] ==> pos == |content|
    {
      if * {
        failed := true;
        return Err(Io);
      }
      var left := |content| - pos;
      var n: nat :| n <= left && n <= room && (n == 0 ==> left == 0) by {
        assert Min(left, room) <= left;
      }
      r := Ok(content[pos..pos + n]);
      pos := pos + n;
    }

    /** Fills `want` bytes of room behind `bytes` with zeros and reads into it. What
        a successful read leaves of the room is cut off; a failed one leaves it all. */
    method ReadBehind(bytes: seq<byte>, want: nat) returns (all: seq<byte>, r: Result<nat, ReadError>)
      requires InRange() && 0 < want
      modifies this
      ensures InRange() && failed == (old(failed) || r.Err?)
      ensures r.Err? ==> r.error == Io && pos == old(pos) && all == bytes + Zeros(want)
      ensures r.Ok? ==> r.value <= want && pos == old(pos) + r.value && all == bytes + content[old(pos)..pos]
      ensures r.Ok? && r.value == 0 ==> pos == |content|
    {
      var len := |bytes|;
      all := bytes + Zeros(want);
      var got := Read(|all| - len);
      match got {
        case Err(e) =>
          r := Err(e);
        case Ok(data) =>
          all := all[..len] + data + all[len + |data|..];
          all := all[..len + |data|];
          r := Ok(|data|);
      }
    }
  }

  // ---------------------------------------------------------------- room in the buffer

  function Zeros(n: nat): (r: bytes)
    ensures |r| == n
  {
    seq(n, _ => 0)
  }

  /** The allocator's answer to a buffer of some capacity that needs more room. */
  type Growth = (nat, nat) -> nat

  ghost predicate Grows(grow: Growth) {
    forall capacity, needed :: grow(capacity, needed) >= needed
  }

  /** An allocator that doubles, or gives more where that is not enough. */
  function Doubling(capacity: nat, needed: nat): nat {
    if needed > 2 * capacity then needed else 2 * capacity
  }

  /** Room offered to a read: what is spare, but a chunk at least. */
  function Want(capacity: nat, len: nat): (want: nat)
    ensures want >= CHUNK
  {
    if capacity > len + CHUNK then capacity - len else CHUNK
  }

  function Sum(sizes: seq<nat>): nat {
    if sizes == [] then 0 else Sum(sizes[..|sizes| - 1]) + sizes[|sizes| - 1]
  }

  /** Capacity after reads of these sizes behind the first `len` bytes. */
  function Capacity(len: nat, capacity: nat, sizes: seq<nat>, grow: Growth): nat {
    if sizes == [] then capacity
    else
      var before := sizes[..|sizes| - 1];
      var c := Capacity(len, capacity, before, grow);
      var needed := len + Sum(before) + Want(c, len + Sum(before));
      if needed <= c then c else grow(c, needed)
  }

  /** Room that the read after these would be offered. */
  function Fill(len: nat, capacity: nat, sizes: seq<nat>, grow: Growth): (fill: nat)
    ensures fill >= CHUNK
  {
    Want(Capacity(len, capacity, sizes, grow), len + Sum(sizes))
  }

  /** A way to deliver bytes: no read is empty or larger than its room. */
  ghost predicate Splits(len: nat, capacity: nat, sizes: seq<nat>, grow: Growth) {
    sizes != [] ==>
      var before := sizes[..|sizes| - 1];
      && Splits(len, capacity, before, grow)
      && 0 < sizes[|sizes| - 1] <= Fill(len, capacity, before, grow)
  }

  lemma SplitsMore(len: nat, capacity: nat, sizes: seq<nat>, n: nat, grow: Growth)
    requires Splits(len, capacity, sizes, grow) && 0 < n <= Fill(len, capacity, sizes, grow)
    ensures Splits(len, capacity, sizes + [n], grow) && Sum(sizes + [n]) == Sum(sizes) + n
  {
    assert (sizes + [n])[..|sizes|] == sizes;
  }

  /** The size of the last read does not matter to the room it was offered. */
  lemma AnyRead(len: nat, capacity: nat, sizes: seq<nat>, n: nat, grow: Growth)
    ensures var c := Capacity(len, capacity, sizes, grow);
            var needed := len + Sum(sizes) + Want(c, len + Sum(sizes));
            Capacity(len, capacity, sizes + [n], grow) == if needed <= c then c else grow(c, needed)
  {
    assert (sizes + [n])[..|sizes|] == sizes;
  }

  lemma NothingRead(len: nat, capacity: nat, grow: Growth)
    ensures Sum([]) == 0 && Splits(len, capacity, [], grow) && Capacity(len, capacity, [], grow) == capacity
  {
  }

  /** The buffer ends with a chunk to spare behind everything delivered. */
  lemma {:induction false} RoomIsLeft(len: nat, capacity: nat, sizes: seq<nat>, grow: Growth)
    requires Grows(grow) && sizes != []
    ensures var before := sizes[..|sizes| - 1];
            Capacity(len, capacity, sizes, grow) >= len + Sum(before) + CHUNK
  {
  }

  /** With a chunk to spare from the start it is never reallocated, and the room
      left depends on how much was delivered and not on how. */
  lemma {:induction false} NoReallocation(len: nat, capacity: nat, sizes: seq<nat>, grow: Growth)
    requires len + Sum(sizes) + CHUNK <= capacity
    ensures Capacity(len, capacity, sizes, grow) == capacity
    ensures Capacity(len, capacity, sizes + [0], grow) == capacity
    ensures Fill(len, capacity, sizes, grow) == capacity - len - Sum(sizes)
  {
    if sizes != [] {
      NoReallocation(len, capacity, sizes[..|sizes| - 1], grow);
    }
    assert (sizes + [0])[..|sizes|] == sizes;
  }

  /** A file that is read again into the cleared buffer, split in any other way
      and no longer than before, finds the buffer large enough. */
  lemma ReuseKeepsCapacity(capacity: nat, first: seq<nat>, again: seq<nat>, grow: Growth)
    requires Grows(grow) && Sum(again) <= Sum(first)
    ensures var c := Capacity(0, capacity, first + [0], grow);
            Capacity(0, c, again + [0], grow) == c
  {
    RoomIsLeft(0, capacity, first + [0], grow);
    assert (first + [0])[..|first|] == first;
    NoReallocation(0, Capacity(0, capacity, first + [0], grow), again, grow);
  }

  // ---------------------------------------------------------------- whole files

  /** What a read comes to when the file delivers `content`, or breaks off after
      `failedAt` bytes of it while the buffer offers `fill` bytes of room. */
  function Outcome(before: bytes, content: bytes, failedAt: Option<nat>, fill: nat): (Done, bytes)
    requires failedAt.Some? ==> failedAt.value <= |content|
  {
    var all := if failedAt.Some? then before + content[..failedAt.value] + Zeros(fill) else before + content;
    if !Valid(all) then (Err(InvalidData), before)
    else (if failedAt.Some? then Err(Io) else Ok(()), all)
  }

  /** What the buffer holds when the last read ends decides the outcome. */
  lemma OutcomeIs(before: bytes, content: bytes, failedAt: Option<nat>, fill: nat, all: bytes)
    requires Valid(before)
    requires failedAt.Some? ==> failedAt.value <= |content|
    requires all == if failedAt.Some? then before + content[..failedAt.value] + Zeros(fill) else before + content
    ensures all[..|before|] == before
    ensures Outcome(before, content, failedAt, fill) ==
            if Valid(all) then (if failedAt.Some? then Err(Io) else Ok(()), all)
            else (Err(InvalidData), before)
  {
  }

  /** Text before a run of NULs: valid exactly when the whole is. */
  lemma {:induction false} ValidFill(s: bytes, n: nat)
    ensures Valid(s + Zeros(n)) <==> Valid(s)
    decreases |s|, n
  {
    if s != [] {
      FillKeepsCharacter(s, n);
      var k := CharLength(s);
      if k > 0 {
        assert (s + Zeros(n))[k..] == s[k..] + Zeros(n);
        ValidFill(s[k..], n);
      }
    } else if n > 0 {
      assert s + Zeros(n) == Zeros(n) && Zeros(n)[1..] == [] + Zeros(n - 1);
      ValidFill([], n - 1);
    } else {
      assert s + Zeros(n) == s;
    }
  }

  lemma FillKeepsCharacter(s: bytes, n: nat)
    requires s != []
    ensures CharLength(s + Zeros(n)) == CharLength(s)
  {
    var t := s + Zeros(n);
    assert t[0] == s[0];
    assert |t| > 1 ==> t[1] == if |s| > 1 then s[1] else 0;
    assert |t| > 2 ==> t[2] == if |s| > 2 then s[2] else 0;
    assert |t| > 3 ==> t[3] == if |s| > 3 then s[3] else 0;
  }

  /** The buffer keeps its old contents as a prefix and stays valid text. A read
      that is not interrupted appends the whole file if that is valid UTF-8 by
      itself and otherwise appends nothing. One that is interrupted appends what
      was delivered and the zeros of the room it was to fill. */
  lemma OutcomeExact(before: bytes, content: bytes, failedAt: Option<nat>, fill: nat)
    requires Valid(before)
    requires failedAt.Some? ==> failedAt.value <= |content|
    ensures var (r, after) := Outcome(before, content, failedAt, fill);
            var delivered := if failedAt.Some? then content[..failedAt.value] else content;
            && before <= after && Valid(after)
            && (r.Ok? <==> failedAt.None? && Valid(content))
            && (r == Err(Io) <==> failedAt.Some? && Valid(delivered))
            && (r == Err(InvalidData) <==> !Valid(delivered))
            && (r.Ok? ==> after == before + content)
            && (r == Err(Io) ==> after == before + delivered + Zeros(fill))
            && (r == Err(InvalidData) ==> after == before)
  {
    var delivered := if failedAt.Some? then content[..failedAt.value] else content;
    ValidAppend(before, delivered);
    ValidFill(before + delivered, fill);
  }

  // ---------------------------------------------------------------- how reads split

  /** One read of `total` bytes, or none if nothing is delivered. */
  function AtOnce(total: nat): seq<nat> {
    if total == 0 then [] else [total]
  }

  /** With `spare` bytes more than it needs a buffer takes the file at once and
      has that much more room left. */
  lemma AtOnceFills(len: nat, total: nat, spare: nat, grow: Growth)
    ensures var capacity := len + total + CHUNK + spare;
            && Sum(AtOnce(total)) == total
            && Splits(len, capacity, AtOnce(total), grow)
            && Fill(len, capacity, AtOnce(total), grow) == CHUNK + spare
  {
    var sizes := AtOnce(total);
    assert sizes != [] ==> sizes[..0] == [];
    NoReallocation(len, len + total + CHUNK + spare, sizes, grow);
  }

  /** Two readings of the same bytes, however the buffer was allocated and however
      the reads split, end alike. */
  ghost predicate SplitNeverShows(before: bytes, content: bytes, failedAt: Option<nat>, grow: Growth)
    requires failedAt.Some? ==> failedAt.value <= |content|
  {
    var total := if failedAt.Some? then failedAt.value else |content|;
    forall c1, c2, s1, s2 |
      && |before| <= c1 && |before| <= c2
      && Splits(|before|, c1, s1, grow) && Sum(s1) == total
      && Splits(|before|, c2, s2, grow) && Sum(s2) == total
      :: Outcome(before, content, failedAt, Fill(|before|, c1, s1, grow))
         == Outcome(before, content, failedAt, Fill(|before|, c2, s2, grow))
  }

  lemma FillShows(before: bytes, content: bytes, k: nat, grow: Growth)
    requires Valid(before) && k <= |content| && Valid(content[..k])
    ensures !SplitNeverShows(before, content, Some(k), grow)
  {
    hide Outcome, Splits, Fill, Capacity, Sum, Valid;
    var len := |before|;
    AtOnceFills(len, k, 0, grow);
    AtOnceFills(len, k, 1, grow);
    OutcomeExact(before, content, Some(k), CHUNK);
    OutcomeExact(before, content, Some(k), CHUNK + 1);
    assert |Outcome(before, content, Some(k), CHUNK).1| + 1 == |Outcome(before, content, Some(k), CHUNK + 1).1|;
  }

  /** How reads split and how much room the buffer had never shows exactly when
      no read fails or what was delivered is not valid text. */
  lemma SplitShowsExactly(before: bytes, content: bytes, failedAt: Option<nat>, grow: Growth)
    requires Valid(before) && Grows(grow)
    requires failedAt.Some? ==> failedAt.value <= |content|
    ensures SplitNeverShows(before, content, failedAt, grow) <==>
            failedAt.None? || !Valid(content[..failedAt.value])
  {
    if failedAt.Some? && Valid(content[..failedAt.value]) {
      FillShows(before, content, failedAt.value, grow);
    } else {
      hide Splits, Fill, Capacity, Sum, Valid;
      forall fill: nat
        ensures Outcome(before, content, failedAt, fill) == Outcome(before, content, failedAt, 0)
      {
        OutcomeExact(before, content, failedAt, fill);
        OutcomeExact(before, content, failedAt, 0);
      }
    }
  }

  // ---------------------------------------------------------------- one capacity, two splits

  /** Capacity once the first read has made its room. */
  function FirstRoom(len: nat, capacity: nat): (room: nat)
    ensures room >= len + CHUNK && room >= CHUNK
  {
    if capacity >= len + CHUNK then capacity else Doubling(capacity, len + CHUNK)
  }

  function Power(room: nat, j: nat): nat {
    if j == 0 then room else 2 * Power(room, j - 1)
  }

  /** How often `room` must be doubled to hold `total`. */
  function Doublings(room: nat, total: nat): (j: nat)
    requires room > 0
    ensures Power(room, j) >= total && (j > 0 ==> Power(room, j - 1) < total)
    decreases if total > room then total - room else 0
  {
    if room >= total then 0
    else
      var j := Doublings(2 * room, total);
      PowerShift(room, j);
      if j > 0 then PowerShift(room, j - 1); j + 1 else 1
  }

  lemma {:induction false} PowerShift(room: nat, j: nat)
    ensures Power(2 * room, j) == Power(room, j + 1)
  {
    if j > 0 {
      PowerShift(room, j - 1);
    }
  }

  /** The smallest of `room`, twice it, four times it and so on that holds `total`. */
  function Smallest(room: nat, total: nat): nat
    requires room > 0
  {
    Power(room, Doublings(room, total))
  }

  lemma {:induction false} PowerGrows(room: nat, i: nat, j: nat)
    requires i <= j
    ensures Power(room, i) <= Power(room, j)
    ensures i < j ==> 2 * Power(room, i) <= Power(room, j)
    decreases j
  {
    if i < j {
      PowerGrows(room, i, j - 1);
    }
  }

  /** Capacity after the room for a read is found or made. */
  function NextRoom(capacity: nat, len: nat): nat {
    var needed := len + Want(capacity, len);
    if needed <= capacity then capacity else Doubling(capacity, needed)
  }

  lemma RoomDoubles(capacity: nat, len: nat, n: nat)
    requires len <= capacity && CHUNK <= capacity && n <= Want(capacity, len)
    ensures NextRoom(capacity, len) == if len + CHUNK <= capacity then capacity else 2 * capacity
    ensures len + n <= NextRoom(capacity, len)
  {
  }

  lemma RoomFirst(len: nat, capacity: nat, n: nat)
    requires len <= capacity && n <= Want(capacity, len)
    ensures NextRoom(capacity, len) == FirstRoom(len, capacity) && len + n <= FirstRoom(len, capacity)
  {
  }

  lemma LastRead(len: nat, capacity: nat, sizes: seq<nat>)
    requires sizes != [] && Splits(len, capacity, sizes, Doubling)
    ensures var before := sizes[..|sizes| - 1];
            var last := sizes[|sizes| - 1];
            var c := Capacity(len, capacity, before, Doubling);
            && Splits(len, capacity, before, Doubling) && Sum(sizes) == Sum(before) + last
            && 0 < last <= Want(c, len + Sum(before))
            && Capacity(len, capacity, sizes, Doubling) == NextRoom(c, len + Sum(before))
  {
  }

  /** Under doubling the capacity is a power of two times the first room. It holds
      what was delivered, and the last doubling happened for want of a chunk. */
  lemma {:induction false} CapacityIsPower(len: nat, capacity: nat, sizes: seq<nat>) returns (j: nat)
    requires len <= capacity && sizes != [] && Splits(len, capacity, sizes, Doubling)
    ensures var room := FirstRoom(len, capacity);
            var total := len + Sum(sizes);
            && Capacity(len, capacity, sizes, Doubling) == Power(room, j)
            && total <= Power(room, j)
            && (j > 0 ==> Power(room, j - 1) < total - 1 + CHUNK)
  {
    hide Splits, Sum, Capacity, Want, NextRoom, FirstRoom;
    var n := |sizes| - 1;
    var before := sizes[..n];
    var room := FirstRoom(len, capacity);
    LastRead(len, capacity, sizes);
    if before == [] {
      NothingRead(len, capacity, Doubling);
      RoomFirst(len, capacity, sizes[n]);
      j := 0;
    } else {
      j := CapacityIsPower(len, capacity, before);
      PowerGrows(room, 0, j);
      RoomDoubles(Power(room, j), len + Sum(before), sizes[n]);
      if Power(room, j) < len + Sum(before) + CHUNK {
        j := j + 1;
      }
    }
  }

  lemma DoublingGrows()
    ensures Grows(Doubling)
  {
  }

  function Ones(total: nat): seq<nat> {
    if total == 0 then [] else Ones(total - 1) + [1]
  }

  /** One byte at a time: leaves a chunk behind all but the last byte. */
  lemma {:induction false} OnesSplit(len: nat, capacity: nat, total: nat)
    ensures |Ones(total)| == total && Sum(Ones(total)) == total
    ensures Splits(len, capacity, Ones(total), Doubling)
    ensures total > 0 ==> Capacity(len, capacity, Ones(total), Doubling) >= len + total - 1 + CHUNK
  {
    hide Splits, Sum, Capacity, Doubling, Grows;
    NothingRead(len, capacity, Doubling);
    if total > 0 {
      OnesSplit(len, capacity, total - 1);
      DoublingGrows();
      SplitsMore(len, capacity, Ones(total - 1), 1, Doubling);
      assert Ones(total)[..total - 1] == Ones(total - 1);
      RoomIsLeft(len, capacity, Ones(total), Doubling);
    }
  }

  /** The reads end with `total` bytes delivered and this capacity. */
  ghost predicate EndsWith(len: nat, capacity: nat, sizes: seq<nat>, total: nat, room: nat) {
    && Splits(len, capacity, sizes, Doubling)
    && len + Sum(sizes) == total
    && Capacity(len, capacity, sizes, Doubling) == room
  }

  lemma ReadMore(len: nat, capacity: nat, sizes: seq<nat>, total: nat, room: nat, n: nat)
    requires EndsWith(len, capacity, sizes, total, room) && 0 < n <= Want(room, total)
    ensures EndsWith(len, capacity, sizes + [n], total + n,
                     if total + Want(room, total) <= room then room else Doubling(room, total + Want(room, total)))
  {
    SplitsMore(len, capacity, sizes, n, Doubling);
    AnyRead(len, capacity, sizes, n, Doubling);
  }

  lemma FirstRead(len: nat, capacity: nat, n: nat)
    requires len <= capacity && 0 < n <= Want(capacity, len)
    ensures EndsWith(len, capacity, [n], len + n, FirstRoom(len, capacity))
  {
    NothingRead(len, capacity, Doubling);
    ReadMore(len, capacity, [], len, capacity, n);
    assert [] + [n] == [n];
  }

  /** A first read of one byte leaves room for a second that takes the rest. */
  lemma OneThenRest(len: nat, capacity: nat, total: nat)
    requires len <= capacity && len + Want(capacity, len) < total <= FirstRoom(len, capacity)
    ensures var room := FirstRoom(len, capacity);
            len + 1 + Want(room, len + 1) <= room && total - len - 1 <= Want(room, len + 1)
  {
  }

  /** Some split stays in the first room if that holds the total. */
  lemma FirstRoomSuffices(len: nat, capacity: nat, total: nat) returns (sizes: seq<nat>)
    requires len <= capacity && len < total <= FirstRoom(len, capacity)
    ensures EndsWith(len, capacity, sizes, total, FirstRoom(len, capacity))
  {
    hide EndsWith, FirstRoom;
    if total - len <= Want(capacity, len) {
      FirstRead(len, capacity, total - len);
      sizes := [total - len];
    } else {
      FirstRead(len, capacity, 1);
      OneThenRest(len, capacity, total);
      hide Want;
      ReadMore(len, capacity, [1], len + 1, FirstRoom(len, capacity), total - len - 1);
      sizes := [1] + [total - len - 1];
    }
  }

  /** And some split doubles no more often than it must. */
  lemma {:induction false} SmallestSuffices(len: nat, capacity: nat, total: nat, j: nat) returns (sizes: seq<nat>)
    requires len <= capacity && len < total
    requires var room := FirstRoom(len, capacity);
             total <= Power(room, j) && (j > 0 ==> Power(room, j - 1) < total)
    ensures EndsWith(len, capacity, sizes, total, Power(FirstRoom(len, capacity), j))
    decreases j
  {
    hide EndsWith;
    var room := FirstRoom(len, capacity);
    if j == 0 {
      sizes := FirstRoomSuffices(len, capacity, total);
    } else {
      var half := Power(room, j - 1);
      PowerGrows(room, 0, j - 1);
      if j > 1 {
        PowerGrows(room, j - 2, j - 1);
      }
      sizes := SmallestSuffices(len, capacity, half, j - 1);
      if total - half <= CHUNK {
        ReadMore(len, capacity, sizes, half, half, total - half);
        sizes := sizes + [total - half];
      } else {
        ReadMore(len, capacity, sizes, half, half, 1);
        ReadMore(len, capacity, sizes + [1], half + 1, 2 * half, total - half - 1);
        sizes := sizes + [1] + [total - half - 1];
      }
    }
  }

  /** Two ways to split the same delivery into a buffer of this capacity leave
      different buffers when the next read fails. */
  ghost predicate SplitShows(before: bytes, content: bytes, k: nat, capacity: nat)
    requires k <= |content|
  {
    exists s1, s2 ::
      && Splits(|before|, capacity, s1, Doubling) && Sum(s1) == k
      && Splits(|before|, capacity, s2, Doubling) && Sum(s2) == k
      && Outcome(before, content, Some(k), Fill(|before|, capacity, s1, Doubling))
         != Outcome(before, content, Some(k), Fill(|before|, capacity, s2, Doubling))
  }

  /** Less than a chunk to spare, one byte aside, in the smallest capacity that
      holds everything; a buffer filled by exactly its first chunk does not count. */
  predicate IsTight(len: nat, capacity: nat, k: nat) {
    var smallest := Smallest(FirstRoom(len, capacity), len + k);
    smallest < len + k + CHUNK - 1 && !(smallest == len + k == CHUNK)
  }

  lemma {:induction false} NoReads(len: nat, capacity: nat, sizes: seq<nat>, grow: Growth)
    requires Splits(len, capacity, sizes, grow) && Sum(sizes) == 0
    ensures sizes == []
  {
  }

  /** Unless it is tight the room left is the same for every split. */
  lemma SameFill(len: nat, capacity: nat, sizes: seq<nat>)
    requires len <= capacity && Splits(len, capacity, sizes, Doubling) && sizes != []
    requires !IsTight(len, capacity, Sum(sizes))
    ensures var total := len + Sum(sizes);
            Fill(len, capacity, sizes, Doubling) == Want(Smallest(FirstRoom(len, capacity), total), total)
  {
    hide Splits, Sum, Capacity, Power;
    var room := FirstRoom(len, capacity);
    var total := len + Sum(sizes);
    var least := Doublings(room, total);
    var j := CapacityIsPower(len, capacity, sizes);
    if j < least {
      PowerGrows(room, j, least - 1);
    } else if least < j {
      PowerGrows(room, least, j - 1);
      DoubledFirstChunk(room, least, j, total);
    }
  }

  lemma DoubledFirstChunk(room: nat, i: nat, j: nat, total: nat)
    requires i < j && Power(room, i) == total == CHUNK && Power(room, j - 1) < total - 1 + CHUNK
    ensures Want(Power(room, j), total) == CHUNK
  {
    if i < j - 1 {
      PowerGrows(room, i, j - 1);
    }
    assert j - 1 == i;
  }

  lemma TightDelivers(len: nat, capacity: nat, k: nat)
    requires IsTight(len, capacity, k)
    ensures k > 0
  {
    PowerGrows(FirstRoom(len, capacity), 0, Doublings(FirstRoom(len, capacity), len + k));
  }

  /** Doubling no more often than needed leaves a chunk of room. */
  lemma TightAtLeast(len: nat, capacity: nat, k: nat) returns (sizes: seq<nat>)
    requires len <= capacity && IsTight(len, capacity, k)
    ensures Splits(len, capacity, sizes, Doubling) && Sum(sizes) == k
    ensures Fill(len, capacity, sizes, Doubling) == CHUNK
  {
    TightDelivers(len, capacity, k);
    sizes := SmallestSuffices(len, capacity, len + k, Doublings(FirstRoom(len, capacity), len + k));
    hide Splits, Sum, Capacity, Power, FirstRoom, Doublings;
  }

  /** Reading byte by byte leaves more. */
  lemma TightByteByByte(len: nat, capacity: nat, k: nat)
    requires len <= capacity && IsTight(len, capacity, k)
    ensures Splits(len, capacity, Ones(k), Doubling) && Sum(Ones(k)) == k
    ensures Fill(len, capacity, Ones(k), Doubling) > CHUNK
  {
    hide Splits, Sum, Capacity, Power, FirstRoom, Ones, Doublings;
    var room := FirstRoom(len, capacity);
    var least := Doublings(room, len + k);
    TightDelivers(len, capacity, k);
    OnesSplit(len, capacity, k);
    var j := CapacityIsPower(len, capacity, Ones(k));
    PowerAtLeastRoom(room, least);
    if j <= least {
      PowerGrows(room, j, least);
    } else {
      PowerGrows(room, least, j);
    }
  }

  lemma PowerAtLeastRoom(room: nat, j: nat)
    ensures Power(room, j) >= room
  {
    PowerGrows(room, 0, j);
  }

  /** With one capacity and a doubling allocator, the split alone shows after a
      failed read exactly when the delivery is tight. */
  lemma SplitAloneShows(before: bytes, content: bytes, k: nat, capacity: nat)
    requires Valid(before) && k <= |content| && Valid(content[..k]) && |before| <= capacity
    ensures SplitShows(before, content, k, capacity) <==> IsTight(|before|, capacity, k)
  {
    hide Splits, Sum, Capacity, Valid, IsTight, Fill, Outcome, Ones;
    var len := |before|;
    if IsTight(len, capacity, k) {
      var s1 := TightAtLeast(len, capacity, k);
      var s2 := Ones(k);
      TightByteByByte(len, capacity, k);
      var f1, f2 := Fill(len, capacity, s1, Doubling), Fill(len, capacity, s2, Doubling);
      OutcomeExact(before, content, Some(k), f1);
      OutcomeExact(before, content, Some(k), f2);
      assert |Outcome(before, content, Some(k), f1).1| != |Outcome(before, content, Some(k), f2).1|;
    } else {
      forall s1, s2 |
        && Splits(len, capacity, s1, Doubling) && Sum(s1) == k
        && Splits(len, capacity, s2, Doubling) && Sum(s2) == k
        ensures Fill(len, capacity, s1, Doubling) == Fill(len, capacity, s2, Doubling)
      {
        SameFillTwice(len, capacity, s1, s2);
      }
    }
  }

  lemma SameFillTwice(len: nat, capacity: nat, s1: seq<nat>, s2: seq<nat>)
    requires len <= capacity && Sum(s1) == Sum(s2) && !IsTight(len, capacity, Sum(s1))
    requires Splits(len, capacity, s1, Doubling) && Splits(len, capacity, s2, Doubling)
    ensures Fill(len, capacity, s1, Doubling) == Fill(len, capacity, s2, Doubling)
  {
    hide Fill, IsTight, Capacity;
    if s1 != [] && s2 != [] {
      SameFill(len, capacity, s1);
      SameFill(len, capacity, s2);
    } else if s1 == [] {
      NothingRead(len, capacity, Doubling);
      NoReads(len, capacity, s2, Doubling);
    } else {
      NothingRead(len, capacity, Doubling);
      NoReads(len, capacity, s1, Doubling);
    }
  }

  /** The split alone can show: a hundred bytes into an empty buffer, delivered
      at once or in halves, and then a failure. */
  lemma HalvesLeaveMoreZeros(content: bytes)
    requires |content| >= 100 && Valid(content[..100])
    ensures Splits(0, 0, [100], Doubling) && Splits(0, 0, [50, 50], Doubling)
    ensures Sum([100]) == Sum([50, 50]) == 100
    ensures Outcome([], content, Some(100), Fill(0, 0, [100], Doubling)) == (Err(Io), content[..100] + Zeros(8192))
    ensures Outcome([], content, Some(100), Fill(0, 0, [50, 50], Doubling)) == (Err(Io), content[..100] + Zeros(16284))
  {
    assert [100][..0] == [] && [50, 50][..1] == [50] && [50][..0] == [];
    assert Capacity(0, 0, [50], Doubling) == 8192;
    assert Fill(0, 0, [100], Doubling) == 8192;
    assert Fill(0, 0, [50, 50], Doubling) == 16284;
    assert [] + content[..100] == content[..100];
    OutcomeExact([], content, Some(100), 8192);
    OutcomeExact([], content, Some(100), 16284);
  }

  // ---------------------------------------------------------------- the object

  /** The loop over the reads. Each is offered the spare capacity or a chunk. */
  method ReadToEnd(f: File, before: seq<byte>, capacity: nat, grow: Growth)
    returns (r: Done, bytes: seq<byte>, room: nat, ghost sizes: seq<nat>, ghost failedAt: Option<nat>)
    requires f.Fresh() && |before| <= capacity && Grows(grow)
    modifies f
    ensures failedAt.Some? == f.failed && r == if failedAt.Some? then Err(Io) else Ok(())
    ensures Splits(|before|, capacity, sizes, grow) && Sum(sizes) <= |f.content|
    ensures Sum(sizes) == if failedAt.Some? then failedAt.value else |f.content|
    ensures bytes == if failedAt.None? then before + f.content
                     else before + f.content[..failedAt.value] + Zeros(Fill(|before|, capacity, sizes, grow))
    ensures |bytes| <= room == Capacity(|before|, capacity, sizes + [0], grow)
  {
    hide Capacity, Splits, Sum, Zeros;
    bytes, room, sizes, failedAt := before, capacity, [], None;
    NothingRead(|before|, capacity, grow);
    assert bytes == before + f.content[..f.pos];
    while true
      invariant f.InRange() && !f.failed && Sum(sizes) == f.pos
      invariant Splits(|before|, capacity, sizes, grow)
      invariant bytes == before + f.content[..f.pos]
      invariant |bytes| <= room == Capacity(|before|, capacity, sizes, grow)
      decreases |f.content| - f.pos
    {
      var len := |bytes|;
      var want := if room - len > CHUNK then room - len else CHUNK;
      if len + want > room {
        room := grow(room, len + want);
      }
      ghost var at := f.pos;
      var got;
      bytes, got := f.ReadBehind(bytes, want);
      if got.Err? {
        AnyRead(|before|, capacity, sizes, 0, grow);
        return Err(Io), bytes, room, sizes, Some(f.pos);
      }
      AnyRead(|before|, capacity, sizes, got.value, grow);
      Delivered(before, f.content, at, f.pos);
      if got.value == 0 {
        return Ok(()), bytes, room, sizes, None;
      }
      SplitsMore(|before|, capacity, sizes, got.value, grow);
      sizes := sizes + [got.value];
    }
  }

  lemma Delivered(before: bytes, content: bytes, i: nat, j: nat)
    requires i <= j <= |content|
    ensures before + content[..i] + content[i..j] == before + content[..j]
    ensures j == |content| ==> before + content[..j] == before + content
  {
    assert content[..i] + content[i..j] == content[..j];
    assert content[..|content|] == content;
  }

  /** A growable text: `capacity` outlives its contents. */
  class Buffer {
    var text: bytes
    var capacity: nat

    ghost predicate Allocated()
      reads this
    {
      |text| <= capacity
    }

    constructor ()
      ensures text == [] && capacity == 0
    {
      text, capacity := [], 0;
    }

    /** Appends the file. `sizes` is how the reads split what they delivered. */
    method ReadInto(file: Option<File>, grow: Growth)
      returns (r: Done, ghost sizes: seq<nat>, ghost failedAt: Option<nat>)
      requires file.Some? ==> file.value.Fresh()
      requires Allocated() && Valid(text) && Grows(grow)
      modifies this, if file.Some? then {file.value} else {}
      ensures Allocated() && Valid(text)
      ensures file.None? ==> r == Err(Io) && text == old(text) && capacity == old(capacity)
      ensures file.Some? ==>
                && failedAt.Some? == file.value.failed
                && Splits(|old(text)|, old(capacity), sizes, grow)
                && Sum(sizes) == (if failedAt.Some? then failedAt.value else |file.value.content|)
                && Sum(sizes) <= |file.value.content|
                && (r, text) == Outcome(old(text), file.value.content, failedAt,
                                        Fill(|old(text)|, old(capacity), sizes, grow))
                && capacity == Capacity(|old(text)|, old(capacity), sizes + [0], grow)
    {
      hide Capacity, Splits, Sum, Outcome;
      if file.None? {
        return Err(Io), [], None;
      }
      var before := text;
      text := [];
      var bytes;
      r, bytes, capacity, sizes, failedAt := ReadToEnd(file.value, before, capacity, grow);
      ghost var fill := Fill(|before|, old(capacity), sizes, grow);
      OutcomeIs(before, file.value.content, failedAt, fill, bytes);
      OutcomeExact(before, file.value.content, failedAt, fill);
      if Valid(bytes) {
        text := bytes;
      } else {
        text := bytes[..|before|];
        r := Err(InvalidData);
      }
    }

    /** Replaces the contents by the whole file and keeps the room: what is not
        longer than a file that was read before is never reallocated. */
    method Read(file: Option<File>, grow: Growth)
      returns (r: Result<bytes, ReadError>, ghost sizes: seq<nat>, ghost failedAt: Option<nat>)
      requires file.Some? ==> file.value.Fresh()
      requires Allocated() && Grows(grow)
      modifies this, if file.Some? then {file.value} else {}
      ensures Allocated() && Valid(text)
      ensures file.None? ==> r == Err(Io) && text == [] && capacity == old(capacity)
      ensures file.Some? ==>
                && failedAt.Some? == file.value.failed
                && Splits(0, old(capacity), sizes, grow)
                && Sum(sizes) == (if failedAt.Some? then failedAt.value else |file.value.content|)
                && Sum(sizes) <= |file.value.content|
                && var (done, all) := Outcome([], file.value.content, failedAt, Fill(0, old(capacity), sizes, grow));
                   text == all && r == if done.Ok? then Ok(all) else Err(done.error)
      ensures r.Ok? ==> file.Some? && r.value == file.value.content && !file.value.failed
      ensures r.Ok? ==> capacity >= |text| + CHUNK
      ensures file.Some? && old(capacity) >= |file.value.content| + CHUNK ==> capacity == old(capacity)
    {
      text := [];
      var done;
      done, sizes, failedAt := ReadInto(file, grow);
      r := if done.Ok? then Ok(text) else Err(done.error);
      if file.Some? {
        OutcomeExact([], file.value.content, failedAt, Fill(0, old(capacity), sizes, grow));
        assert (sizes + [0])[..|sizes|] == sizes;
        RoomIsLeft(0, old(capacity), sizes + [0], grow);
        if old(capacity) >= |file.value.content| + CHUNK {
          NoReallocation(0, old(capacity), sizes, grow);
        }
      }
    }
  }
}
