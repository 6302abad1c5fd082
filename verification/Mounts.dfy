/** The table of mounted filesystems (`parse_mounts` in
    src/core/collectors/filesys.rs). */
module Mounts {
  import opened Basics
  import opened Procfs
  import opened Utf8

  const SKIPPED_FS_TYPES: set<bytes> := {
    Ascii("autofs"), Ascii("binfmt_misc"), Ascii("bpf"), Ascii("cgroup"), Ascii("cgroup2"), Ascii("configfs"),
    Ascii("debugfs"), Ascii("devpts"), Ascii("devtmpfs"), Ascii("efivarfs"), Ascii("fusectl"), Ascii("hugetlbfs"),
    Ascii("mqueue"), Ascii("nsfs"), Ascii("overlay"), Ascii("proc"), Ascii("procfs"), Ascii("pstore"),
    Ascii("ramfs"), Ascii("rpc_pipefs"), Ascii("securityfs"), Ascii("selinuxfs"), Ascii("squashfs"), Ascii("sysfs"),
    Ascii("tmpfs"), Ascii("tracefs"), Ascii("nfs"), Ascii("nfs4"), Ascii("cifs"), Ascii("smb3"), Ascii("smbfs"),
    Ascii("afs"), Ascii("ceph"), Ascii("glusterfs"), Ascii("9p"), Ascii("lustre")
  }

  datatype Mount = Mount(device: bytes, mountPoint: bytes, fsType: bytes)

  predicate IsFuse(fsType: bytes) {
    |fsType| >= 4 && fsType[..4] == Ascii("fuse")
  }

  /** Worth measuring: backed by a device and of a measured type. */
  predicate IsMeasured(device: bytes, fsType: bytes) {
    && device != [] && device[0] == SLASH
    && fsType !in SKIPPED_FS_TYPES
    && !IsFuse(fsType)
  }

  function ParseLine(line: bytes, lossy: Lossy): Option<Mount> {
    var f := Fields(line);
    if |f| < 3 || !IsMeasured(f[0], f[2]) then None
    else Some(Mount(Unescape(f[0], lossy), Unescape(f[1], lossy), f[2]))
  }

  /** The measured mounts of a table, in its order and with repetitions. */
  function Accepted(lines: seq<bytes>, lossy: Lossy): seq<Mount> {
    if lines == [] then []
    else
      var rest := Accepted(lines[..|lines| - 1], lossy);
      match ParseLine(lines[|lines| - 1], lossy)
      case None => rest
      case Some(m) => rest + [m]
  }

  // ---------------------------------------------------------------- last entry wins

  /** Mount points in order of first appearance. */
  function Order(ms: seq<Mount>): seq<bytes> {
    if ms == [] then []
    else
      var order := Order(ms[..|ms| - 1]);
      var p := ms[|ms| - 1].mountPoint;
      if p in order then order else order + [p]
  }

  function ByPath(ms: seq<Mount>): map<bytes, Mount> {
    if ms == [] then map[] else ByPath(ms[..|ms| - 1])[ms[|ms| - 1].mountPoint := ms[|ms| - 1]]
  }

  /** One mount for each mount point, the last one in the table. */
  function LastWins(ms: seq<Mount>): (r: seq<Mount>) {
    OrderIsKeys(ms);
    seq(|Order(ms)|, i requires 0 <= i < |Order(ms)| => ByPath(ms)[Order(ms)[i]])
  }

  lemma {:induction false} OrderIsKeys(ms: seq<Mount>)
    ensures forall p :: p in Order(ms) <==> p in ByPath(ms)
    ensures Distinct(Order(ms))
  {
    if ms != [] {
      OrderIsKeys(ms[..|ms| - 1]);
    }
  }

  /** No entry after position i is for the same mount point. */
  ghost predicate IsLast(ms: seq<Mount>, i: nat) {
    i < |ms| && forall j | i < j < |ms| :: ms[j].mountPoint != ms[i].mountPoint
  }

  /** Position of the first entry for a mount point, |ms| if there is none. */
  function FirstIndex(ms: seq<Mount>, p: bytes): (i: nat)
    ensures i <= |ms| && (i < |ms| ==> ms[i].mountPoint == p)
    ensures forall j | 0 <= j < i :: ms[j].mountPoint != p
  {
    if ms == [] || ms[0].mountPoint == p then 0 else 1 + FirstIndex(ms[1..], p)
  }

  lemma {:induction false} ByPathIsLast(ms: seq<Mount>, p: bytes) returns (i: nat)
    requires p in ByPath(ms)
    ensures IsLast(ms, i) && ms[i] == ByPath(ms)[p] && ms[i].mountPoint == p
  {
    var n := |ms| - 1;
    i := n;
    if ms[n].mountPoint != p {
      i := ByPathIsLast(ms[..n], p);
      assert ms[i] == ms[..n][i];
      assert forall j | i < j < n :: ms[j] == ms[..n][j];
    }
  }

  lemma {:induction false} OrderCovers(ms: seq<Mount>, i: nat)
    requires i < |ms|
    ensures ms[i].mountPoint in Order(ms)
  {
    if i < |ms| - 1 {
      OrderCovers(ms[..|ms| - 1], i);
    }
  }

  lemma FirstIndexIs(ms: seq<Mount>, p: bytes, i: nat)
    requires i < |ms| && ms[i].mountPoint == p && forall j | 0 <= j < i :: ms[j].mountPoint != p
    ensures FirstIndex(ms, p) == i
  {
  }

  lemma {:induction false} FirstIndexOfOrdered(ms: seq<Mount>, p: bytes)
    requires p in Order(ms)
    ensures FirstIndex(ms, p) < |ms|
  {
    var n := |ms| - 1;
    if p in Order(ms[..n]) {
      FirstIndexOfOrdered(ms[..n], p);
      FirstIndexStays(ms, p);
    } else {
      assert ms[n].mountPoint == p;
    }
  }

  /** Later entries do not move the first one. */
  lemma FirstIndexStays(ms: seq<Mount>, p: bytes)
    requires ms != [] && FirstIndex(ms[..|ms| - 1], p) < |ms| - 1
    ensures FirstIndex(ms, p) == FirstIndex(ms[..|ms| - 1], p)
  {
    var before := ms[..|ms| - 1];
    var i := FirstIndex(before, p);
    assert ms[i] == before[i] && forall j | 0 <= j < i :: ms[j] == before[j];
    FirstIndexIs(ms, p, i);
  }

  lemma {:induction false} OrderIsByFirst(ms: seq<Mount>)
    ensures var order := Order(ms);
            forall j, k | 0 <= j < k < |order| :: FirstIndex(ms, order[j]) < FirstIndex(ms, order[k])
  {
    if ms != [] {
      hide FirstIndex;
      var n := |ms| - 1;
      var before := ms[..n];
      var order := Order(before);
      OrderIsByFirst(before);
      forall p | p in order
        ensures FirstIndex(ms, p) == FirstIndex(before, p) < n
      {
        FirstIndexOfOrdered(before, p);
        FirstIndexStays(ms, p);
      }
      if ms[n].mountPoint !in order {
        NewPathIsFirst(ms);
      }
    }
  }

  lemma NewPathIsFirst(ms: seq<Mount>)
    requires ms != [] && ms[|ms| - 1].mountPoint !in Order(ms[..|ms| - 1])
    ensures FirstIndex(ms, ms[|ms| - 1].mountPoint) == |ms| - 1
  {
    var n := |ms| - 1;
    forall j | 0 <= j < n
      ensures ms[j].mountPoint != ms[n].mountPoint
    {
      OrderCovers(ms[..n], j);
    }
    FirstIndexIs(ms, ms[n].mountPoint, n);
  }

  ghost predicate DistinctPaths(r: seq<Mount>) {
    forall j, k | 0 <= j < k < |r| :: r[j].mountPoint != r[k].mountPoint
  }

  ghost predicate HasPath(r: seq<Mount>, p: bytes) {
    exists k | 0 <= k < |r| :: r[k].mountPoint == p
  }

  ghost predicate CoversAll(ms: seq<Mount>, r: seq<Mount>) {
    forall i | 0 <= i < |ms| :: HasPath(r, ms[i].mountPoint)
  }

  ghost predicate IsLastEntry(ms: seq<Mount>, m: Mount) {
    exists i: nat | i < |ms| :: IsLast(ms, i) && ms[i] == m
  }

  ghost predicate EachIsLast(ms: seq<Mount>, r: seq<Mount>) {
    forall k | 0 <= k < |r| :: IsLastEntry(ms, r[k])
  }

  ghost predicate InFirstOrder(ms: seq<Mount>, r: seq<Mount>) {
    forall j, k | 0 <= j < k < |r| :: FirstIndex(ms, r[j].mountPoint) < FirstIndex(ms, r[k].mountPoint)
  }

  lemma LastWinsKeys(ms: seq<Mount>)
    ensures |LastWins(ms)| == |Order(ms)|
    ensures forall k | 0 <= k < |Order(ms)| :: LastWins(ms)[k].mountPoint == Order(ms)[k]
    ensures EachIsLast(ms, LastWins(ms))
  {
    hide Order, ByPath;
    OrderIsKeys(ms);
    forall k | 0 <= k < |Order(ms)|
      ensures LastWins(ms)[k].mountPoint == Order(ms)[k] && IsLastEntry(ms, LastWins(ms)[k])
    {
      var i := ByPathIsLast(ms, Order(ms)[k]);
    }
  }

  /** What the reader is promised: distinct mount points, none lost, in order of
      first appearance, each with the last entry for it. */
  lemma LastWinsExact(ms: seq<Mount>)
    ensures var r := LastWins(ms);
            DistinctPaths(r) && CoversAll(ms, r) && EachIsLast(ms, r) && InFirstOrder(ms, r)
  {
    hide LastWins, Order, IsLast, FirstIndex;
    var r := LastWins(ms);
    LastWinsKeys(ms);
    OrderIsKeys(ms);
    OrderIsByFirst(ms);
    forall i | 0 <= i < |ms|
      ensures HasPath(r, ms[i].mountPoint)
    {
      OrderCovers(ms, i);
      var k :| 0 <= k < |Order(ms)| && Order(ms)[k] == ms[i].mountPoint;
      assert r[k].mountPoint == ms[i].mountPoint;
    }
  }

  /** Parses the table with a map of the latest entries and a list of their
      mount points in order, then empties the map along the list. */
  method ParseMounts(content: bytes, lossy: Lossy) returns (mounts: seq<Mount>)
    ensures mounts == LastWins(Accepted(Lines(content), lossy))
  {
    hide ParseLine, Lines;
    var byPath: map<bytes, Mount> := map[];
    var order: seq<bytes> := [];
    var lines := Lines(content);
    ghost var accepted: seq<Mount> := [];
    for i := 0 to |lines|
      invariant accepted == Accepted(lines[..i], lossy)
      invariant byPath == ByPath(accepted) && order == Order(accepted)
    {
      assert lines[..i + 1][..i] == lines[..i];
      var parsed := ParseEntry(lines[i], lossy);
      if parsed.None? {
        continue;
      }
      var mount := parsed.value;
      var isNew := mount.mountPoint !in byPath;
      byPath := byPath[mount.mountPoint := mount];
      OrderIsKeys(accepted);
      assert (accepted + [mount])[..|accepted|] == accepted;
      if isNew {
        order := order + [mount.mountPoint];
      }
      accepted := accepted + [mount];
    }
    assert lines[..|lines|] == lines;
    OrderIsKeys(accepted);
    mounts := TakeInOrder(byPath, order);
  }

  /** Empties the map along the list. */
  method TakeInOrder(all: map<bytes, Mount>, order: seq<bytes>) returns (mounts: seq<Mount>)
    requires Distinct(order) && forall p | p in order :: p in all
    ensures mounts == seq(|order|, i requires 0 <= i < |order| => all[order[i]])
  {
    var byPath := all;
    mounts := [];
    for i := 0 to |order|
      invariant |mounts| == i && (forall k | 0 <= k < i :: mounts[k] == all[order[k]])
      invariant forall k | i <= k < |order| :: order[k] in byPath && byPath[order[k]] == all[order[k]]
    {
      var p := order[i];
      if p in byPath {
        mounts := mounts + [byPath[p]];
        byPath := byPath - {p};
      }
    }
  }

  /** One line of the table. */
  method ParseEntry(line: bytes, lossy: Lossy) returns (m: Option<Mount>)
    ensures m == ParseLine(line, lossy)
  {
    var f := Fields(line);
    if |f| < 3 || !IsMeasured(f[0], f[2]) {
      return None;
    }
    var mountPoint := UnescapeMountField(f[1], lossy);
    var device := UnescapeMountField(f[0], lossy);
    m := Some(Mount(device, mountPoint, f[2]));
  }

  // ---------------------------------------------------------------- round trip with the kernel

  datatype Entry = Entry(device: bytes, mountPoint: bytes, fsType: bytes, rest: bytes)

  /** The kernel escapes at least space, tab, newline and backslash, and never a
      slash, a carriage return or a form feed. Other bytes may go either way. */
  ghost predicate KernelEscapes(special: byte -> bool) {
    && special(SPACE) && special(TAB) && special(NEWLINE) && special(BACKSLASH)
    && !special(SLASH) && !special(RETURN) && !special(FORM_FEED)
  }

  /** What is escaped in each field; `#`, say, only in the device and the type. */
  datatype Kernel = Kernel(device: byte -> bool, mountPoint: byte -> bool, fsType: byte -> bool) {
    ghost predicate Valid() {
      KernelEscapes(device) && KernelEscapes(mountPoint) && KernelEscapes(fsType)
    }
  }

  /** One line of the table: three escaped fields and the mount options. */
  function Line(e: Entry, kernel: Kernel): bytes {
    Escape(e.device, kernel.device) + [SPACE]
    + (Escape(e.mountPoint, kernel.mountPoint) + [SPACE]
       + (Escape(e.fsType, kernel.fsType) + [SPACE] + e.rest))
  }

  /** The reader finds the three fields as the kernel wrote them. */
  predicate IsTakenApart(e: Entry, kernel: Kernel) {
    var f := Fields(Line(e, kernel));
    && |f| >= 3
    && f[0] == Escape(e.device, kernel.device)
    && f[1] == Escape(e.mountPoint, kernel.mountPoint)
    && f[2] == Escape(e.fsType, kernel.fsType)
  }

  /** The bytes that separate fields for the reader but not for the kernel. */
  predicate IsCleanField(s: bytes) {
    s != [] && RETURN !in s && FORM_FEED !in s
  }

  lemma {:induction false} EscapedIsWord(s: bytes, special: byte -> bool)
    requires KernelEscapes(special)
    ensures IsWord(Escape(s, special)) <==> IsCleanField(s)
    ensures Escape(s, special) == [] <==> s == []
  {
    if s != [] {
      EscapedIsWord(s[1..], special);
      var head := if special(s[0]) then OctalEscape(s[0]) else [s[0]];
      EscapedByteIsWord(s[0], special);
      assert s == [s[0]] + s[1..];
      assert Escape(s, special) == head + Escape(s[1..], special);
      assert head != [] && Escape(s, special)[0] == head[0];
    }
  }

  lemma EscapedByteIsWord(b: byte, special: byte -> bool)
    requires KernelEscapes(special)
    ensures var head := if special(b) then OctalEscape(b) else [b];
            IsWord(head) <==> b != RETURN && b != FORM_FEED
  {
    if special(b) {
      OctalDigits(b);
    } else {
      assert b in [b];
    }
  }

  /** The reader finds the three fields the kernel wrote exactly when none is
      empty and none contains a carriage return or a form feed: those separate
      fields for the reader, but the kernel leaves them as they are. */
  lemma FieldsOfLine(e: Entry, kernel: Kernel)
    requires kernel.Valid()
    ensures IsTakenApart(e, kernel) <==>
            IsCleanField(e.device) && IsCleanField(e.mountPoint) && IsCleanField(e.fsType)
  {
    EscapedIsWord(e.device, kernel.device);
    EscapedIsWord(e.mountPoint, kernel.mountPoint);
    EscapedIsWord(e.fsType, kernel.fsType);
    var f := Fields(Line(e, kernel));
    if IsCleanField(e.device) && IsCleanField(e.mountPoint) && IsCleanField(e.fsType) {
      var third := Escape(e.fsType, kernel.fsType) + [SPACE] + e.rest;
      FieldsCons(Escape(e.device, kernel.device), Escape(e.mountPoint, kernel.mountPoint) + [SPACE] + third);
      FieldsCons(Escape(e.mountPoint, kernel.mountPoint), third);
      FieldsCons(Escape(e.fsType, kernel.fsType), e.rest);
    } else {
      FieldsAreWords(Line(e, kernel));
      assert |f| >= 3 ==> f[0] in f && f[1] in f && f[2] in f;
    }
  }

  /** For instance a carriage return in a path: the three fields are not found. */
  lemma ReturnBreaksTheLine(kernel: Kernel)
    requires kernel.Valid()
    ensures var e := Entry(Ascii("/dev/sda1"), Ascii("/mnt/a\rb"), Ascii("ext4"), Ascii("rw 0 0"));
            !IsTakenApart(e, kernel)
  {
    var e := Entry(Ascii("/dev/sda1"), Ascii("/mnt/a\rb"), Ascii("ext4"), Ascii("rw 0 0"));
    assert e.mountPoint[6] == RETURN;
    FieldsOfLine(e, kernel);
  }

  function Table(es: seq<Entry>, kernel: Kernel): bytes {
    if es == [] then [] else Line(es[0], kernel) + [NEWLINE] + Table(es[1..], kernel)
  }

  /** The entries worth measuring, with their fields unescaped; the type stays
      as it is written in the table. */
  function Measured(es: seq<Entry>, kernel: Kernel): seq<Mount> {
    if es == [] then []
    else
      var e := es[0];
      var fsType := Escape(e.fsType, kernel.fsType);
      (if IsMeasured(e.device, fsType) then [Mount(e.device, e.mountPoint, fsType)] else []) + Measured(es[1..], kernel)
  }

  /** Kept is what has a device file, is of no skipped type and is not served by a
      process; for instance ext4 and xfs on a device file, and never tmpfs, overlay
      or a network filesystem. */
  lemma WhatIsKept(device: bytes, fsType: bytes)
    ensures IsMeasured(device, fsType) <==>
            Ascii("/") <= device && fsType !in SKIPPED_FS_TYPES && !(Ascii("fuse") <= fsType)
    ensures fsType in {Ascii("tmpfs"), Ascii("overlay"), Ascii("nfs4"), Ascii("cifs")} ==> !IsMeasured(device, fsType)
    ensures fsType == Ascii("ext4") || fsType == Ascii("xfs") ==> (IsMeasured(device, fsType) <==> Ascii("/") <= device)
  {
    OrdinaryTypes(Ascii("ext4"));
    OrdinaryTypes(Ascii("xfs"));
  }

  lemma OrdinaryTypes(t: bytes)
    requires |t| >= 2 && (t[0] == 120 || t[1] == 120)
    ensures t !in SKIPPED_FS_TYPES && !(Ascii("fuse") <= t)
  {
  }

  /** Text fields that the reader can take apart, and options on the same line. */
  ghost predicate IsReadable(e: Entry) {
    && IsCleanField(e.device) && IsCleanField(e.mountPoint) && IsCleanField(e.fsType)
    && Valid(e.device) && Valid(e.mountPoint)
    && NEWLINE !in e.rest
  }

  lemma {:induction false} NothingToDecode(s: bytes)
    requires BACKSLASH !in s
    ensures Decode(s) == s
    decreases |s|
  {
    if s != [] {
      assert s[0] in s;
      NothingToDecode(s[1..]);
      assert s == [s[0]] + s[1..];
    }
  }

  lemma UnescapeEscaped(s: bytes, special: byte -> bool, lossy: Lossy)
    requires special(BACKSLASH) && Valid(s) && forall t | Valid(t) :: lossy(t) == t
    ensures Unescape(Escape(s, special), lossy) == s
  {
    EscapeRoundTrip(s, special);
    if BACKSLASH !in Escape(s, special) {
      NothingToDecode(Escape(s, special));
    }
  }

  /** A field of valid text gives valid text: the decoded bytes where they are valid,
      what the replacement makes of them elsewhere. */
  lemma UnescapedIsText(s: bytes, lossy: Lossy)
    requires Valid(s) && (forall t :: Valid(lossy(t))) && (forall t | Valid(t) :: lossy(t) == t)
    ensures Valid(Unescape(s, lossy))
    ensures Unescape(s, lossy) == if Valid(Decode(s)) then Decode(s) else lossy(Decode(s))
  {
    if BACKSLASH !in s {
      NothingToDecode(s);
    }
  }

  lemma {:induction false} EscapedStaysOnLine(s: bytes, special: byte -> bool)
    requires KernelEscapes(special)
    ensures NEWLINE !in Escape(s, special)
    ensures s != [] ==> (Escape(s, special)[0] == SLASH <==> s[0] == SLASH)
  {
    if s != [] {
      EscapedStaysOnLine(s[1..], special);
      OctalDigits(s[0]);
    }
  }

  lemma LineStaysOnLine(e: Entry, kernel: Kernel)
    requires kernel.Valid() && IsReadable(e)
    ensures NEWLINE !in Line(e, kernel)
  {
    EscapedStaysOnLine(e.device, kernel.device);
    EscapedStaysOnLine(e.mountPoint, kernel.mountPoint);
    EscapedStaysOnLine(e.fsType, kernel.fsType);
  }

  /** What `lines` takes off the end of a line it takes off the options. */
  lemma LineLosesReturn(e: Entry, kernel: Kernel)
    ensures StripReturn(Line(e, kernel)) == Line(e.(rest := StripReturn(e.rest)), kernel)
  {
    var head := Escape(e.device, kernel.device) + [SPACE]
                + (Escape(e.mountPoint, kernel.mountPoint) + [SPACE] + (Escape(e.fsType, kernel.fsType) + [SPACE]));
    hide Escape;
    assert forall tail :: Line(e.(rest := tail), kernel) == head + tail;
    assert e.(rest := e.rest) == e;
    if e.rest != [] {
      assert (head + e.rest)[..|head| + |e.rest| - 1] == head + e.rest[..|e.rest| - 1];
    } else {
      assert (head + [])[|head| - 1] == SPACE;
    }
  }

  lemma ParsedLine(e: Entry, kernel: Kernel, lossy: Lossy)
    requires kernel.Valid() && IsReadable(e) && forall t | Valid(t) :: lossy(t) == t
    ensures var fsType := Escape(e.fsType, kernel.fsType);
            ParseLine(Line(e, kernel), lossy) ==
            if IsMeasured(e.device, fsType) then Some(Mount(e.device, e.mountPoint, fsType)) else None
  {
    hide Line, Fields, Escape, Unescape;
    FieldsOfLine(e, kernel);
    EscapedIsWord(e.device, kernel.device);
    EscapedStaysOnLine(e.device, kernel.device);
    UnescapeEscaped(e.device, kernel.device, lossy);
    UnescapeEscaped(e.mountPoint, kernel.mountPoint, lossy);
  }

  lemma {:induction false} AcceptedCons(line: bytes, lines: seq<bytes>, lossy: Lossy)
    ensures var m := ParseLine(line, lossy);
            Accepted([line] + lines, lossy) == (if m.Some? then [m.value] else []) + Accepted(lines, lossy)
    decreases |lines|
  {
    hide ParseLine;
    var all := [line] + lines;
    if lines == [] {
      assert all[..|all| - 1] == [];
    } else {
      AcceptedCons(line, lines[..|lines| - 1], lossy);
      assert all[..|all| - 1] == [line] + lines[..|lines| - 1];
      assert all[|all| - 1] == lines[|lines| - 1];
    }
  }

  lemma {:induction false} TableIsRead(es: seq<Entry>, kernel: Kernel, lossy: Lossy)
    requires kernel.Valid() && (forall e | e in es :: IsReadable(e)) && forall t | Valid(t) :: lossy(t) == t
    ensures Accepted(Lines(Table(es, kernel)), lossy) == Measured(es, kernel)
  {
    hide ParseLine, Line, Escape, IsMeasured;
    if es != [] {
      assert es[0] in es && forall e | e in es[1..] :: e in es;
      var read := es[0].(rest := StripReturn(es[0].rest));
      LineStaysOnLine(es[0], kernel);
      LinesCons(Line(es[0], kernel), Table(es[1..], kernel));
      LineLosesReturn(es[0], kernel);
      AcceptedCons(Line(read, kernel), Lines(Table(es[1..], kernel)), lossy);
      ParsedLine(read, kernel, lossy);
      TableIsRead(es[1..], kernel, lossy);
    }
  }

  /** Reading back a table that the kernel wrote gives its measured entries,
      reduced to the last one for each mount point, whatever spaces, tabs,
      newlines, backslashes or look-alike escapes the paths contain. */
  lemma TableRoundTrip(es: seq<Entry>, kernel: Kernel, lossy: Lossy)
    requires kernel.Valid() && (forall e | e in es :: IsReadable(e)) && forall t | Valid(t) :: lossy(t) == t
    ensures var r := LastWins(Accepted(Lines(Table(es, kernel)), lossy));
            var ms := Measured(es, kernel);
            DistinctPaths(r) && CoversAll(ms, r) && EachIsLast(ms, r) && InFirstOrder(ms, r)
  {
    TableIsRead(es, kernel, lossy);
    LastWinsExact(Measured(es, kernel));
  }
}
