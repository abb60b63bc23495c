/** The read-only file system: inodes over data blocks, directory entries, and a process's descriptors. */
module FileSystem {
  import opened Basics
  import opened Text

  const BLOCKS_PER_INODE: nat := 1023
  const NAME_MAX: nat := 32
  const FDS: nat := 8

  datatype Inode = Inode(length: nat, blocks: seq<nat>)

  datatype FileType = RtcDevice | DirectoryFile | RegularFile

  datatype Dentry = Dentry(name: seq<byte>, ftype: FileType, inode: nat)

  /** The boot block's directory, the inodes, and the data blocks. */
  datatype Image = Image(dentries: seq<Dentry>, inodes: seq<Inode>, blocks: seq<seq<byte>>) {
    /** Inodes and blocks have their sizes; block numbers may be anything. */
    predicate Shaped() {
      && |inodes| > 0 && |blocks| > 0
      && (forall i :: 0 <= i < |inodes| ==> |inodes[i].blocks| == BLOCKS_PER_INODE && inodes[i].length < 1023 * 4096)
      && (forall b :: 0 <= b < |blocks| ==> |blocks[b]| == 4096)
    }

    predicate Valid() {
      && Shaped()
      && (forall d :: 0 <= d < |dentries| ==> |dentries[d].name| == NAME_MAX)
      && (forall d :: 0 <= d < |dentries| && dentries[d].ftype.RegularFile? ==> Sound(dentries[d].inode))
    }

    /** Every block index a read of file `i` can look up holds a data block number, the one at its end included. */
    predicate Sound(i: nat)
      requires Shaped()
    {
      i < |inodes| && forall b :: 0 <= b <= inodes[i].length / 4096 ==> inodes[i].blocks[b] < |blocks|
    }

    /** Byte `k` of file `i`. */
    function ByteAt(i: nat, k: nat): byte
      requires Shaped() && i < |inodes| && k < inodes[i].length && inodes[i].blocks[k / 4096] < |blocks|
    {
      blocks[inodes[i].blocks[k / 4096]][k % 4096]
    }

    /** File `i` as a flat byte sequence. */
    function Content(i: nat): (c: seq<byte>)
      requires Valid() && Sound(i)
      ensures |c| == inodes[i].length
      ensures forall k :: 0 <= k < |c| ==> c[k] == ByteAt(i, k)
    {
      seq(inodes[i].length, k requires 0 <= k < inodes[i].length => ByteAt(i, k))
    }
  }

  /** A file is its data blocks one after the other, the last one cut to the file's length. */
  lemma ContentIsBlocks(img: Image, i: nat, b: nat)
    requires img.Valid() && img.Sound(i) && 4096 * b < img.inodes[i].length
    ensures var node := img.inodes[i];
            var n := Min(4096, node.length - 4096 * b);
            img.Content(i)[4096 * b..4096 * b + n] == img.blocks[node.blocks[b]][..n]
  {
    var node := img.inodes[i];
    var n := Min(4096, node.length - 4096 * b);
    var content, block := img.Content(i), img.blocks[node.blocks[b]];
    forall k | 0 <= k < n ensures content[4096 * b + k] == block[k] {
      assert content[4096 * b + k] == img.ByteAt(i, 4096 * b + k);
    }
    SameStretch(content, 4096 * b, block, n);
  }

  lemma SameStretch(s: seq<byte>, at: nat, t: seq<byte>, n: nat)
    requires at + n <= |s| && n <= |t| && forall k :: 0 <= k < n ==> s[at + k] == t[k]
    ensures s[at..at + n] == t[..n]
  {
    var a, b := s[at..at + n], t[..n];
    forall k | 0 <= k < n ensures a[k] == b[k] {
      assert a[k] == s[at + k];
    }
  }

  // ---- read_data ----------------------------------------------------------------------

  function Min(a: nat, b: nat): nat {
    if a < b then a else b
  }

  /** A read of [offset, end) looks up the block of `offset`, even when empty, and every later block it enters. */
  predicate Visits(offset: nat, end: nat, b: nat) {
    b == offset / 4096 || (offset / 4096 < b && 4096 * b < end)
  }

  ghost predicate Faulty(img: Image, i: nat, offset: nat, length: nat)
    requires img.Shaped()
  {
    i >= |img.inodes| || (
      var node := img.inodes[i];
      offset <= node.length &&
      exists b :: 0 <= b < BLOCKS_PER_INODE && Visits(offset, Min(offset + length, node.length), b) &&
                  node.blocks[b] >= |img.blocks|
    )
  }

  /**
   * read_data: the block walk is a slice of the flat file for every offset and length. It fails
   * exactly when the inode or a block it visits is out of range, returns the length exactly when
   * all bytes existed, and 0 on a short read.
   */
  method ReadData(img: Image, inode: nat, offset: nat, buf: array<byte>, at: nat, length: nat) returns (r: int)
    requires img.Shaped() && at + length <= buf.Length
    modifies buf
    ensures r == -1 <==> Faulty(img, inode, offset, length)
    ensures r != -1 ==> r == if offset + length <= img.inodes[inode].length then length else 0
    ensures forall j :: 0 <= j < buf.Length && !(at <= j < at + length) ==> buf[j] == old(buf[j])
    ensures r != -1 ==>
              var size := img.inodes[inode].length;
              forall j :: at <= j < at + length ==>
                var k := offset + (j - at);
                if k < size then img.inodes[inode].blocks[k / 4096] < |img.blocks| && buf[j] == img.ByteAt(inode, k)
                else buf[j] == old(buf[j])
  {
    if inode > |img.inodes| - 1 {
      return -1;
    }
    var node := img.inodes[inode];
    if offset > node.length {
      return 0;
    }
    ghost var end := Min(offset + length, node.length);
    var index := offset / 4096;
    var block := node.blocks[index];
    if block > |img.blocks| - 1 {
      assert Visits(offset, end, index);
      return -1;
    }
    var count, pos := 0, offset;
    while count < length && pos < node.length
      invariant pos == offset + count <= end && count <= length
      invariant offset / 4096 <= index < BLOCKS_PER_INODE && 4096 * index <= pos <= 4096 * index + 4096
      invariant pos == 4096 * index + 4096 ==> count > 0
      invariant index > offset / 4096 ==> 4096 * index < pos
      invariant block == node.blocks[index] < |img.blocks|
      invariant forall b :: offset / 4096 <= b <= index ==> node.blocks[b] < |img.blocks|
      invariant forall j :: at <= j < at + count ==> buf[j] == img.ByteAt(inode, offset + (j - at))
      invariant forall j :: 0 <= j < buf.Length && !(at <= j < at + count) ==> buf[j] == old(buf[j])
    {
      if count != 0 && pos % 4096 == 0 {
        index := index + 1;
        block := node.blocks[index];
        if block > |img.blocks| - 1 {
          assert Visits(offset, end, index);
          return -1;
        }
      }
      buf[at + count] := img.blocks[block][pos % 4096];
      pos, count := pos + 1, count + 1;
    }
    r := if count == length then length else 0;
  }

  // ---- The directory ------------------------------------------------------------------

  /** A stored name: at most 32 bytes, NUL-padded only when shorter. */
  function NameOf(d: Dentry): seq<byte> {
    CString(d.name)
  }

  /** The first bytes of an entry in memory: its name runs straight into its little-endian type. */
  function Raw(d: Dentry): seq<byte> {
    d.name + [match d.ftype case RtcDevice => 0 case DirectoryFile => 1 case RegularFile => 2, 0, 0, 0]
  }

  method Strlen(s: seq<byte>) returns (n: nat)
    requires NUL in s
    ensures n == |CString(s)|
  {
    n := 0;
    while s[n] != NUL
      invariant n < |s| && NUL !in s[..n]
      decreases |s| - n
    {
      n := n + 1;
    }
    CStringIs(s, n);
  }

  /** A C string as strncmp sees it: cut at its terminator and at `n` bytes. */
  function Cut(s: seq<byte>, n: nat): (c: seq<byte>)
    ensures |c| <= n && |c| <= |s| && c == s[..|c|]
  {
    var c := CString(s);
    if |c| < n then c else c[..n]
  }

  /** The kernel's strncmp compares the two strings as far as `n` bytes. */
  method Strncmp(s1: seq<byte>, s2: seq<byte>, n: nat) returns (r: int)
    requires n <= |s1| || NUL in s1
    requires n <= |s2| || NUL in s2
    ensures r == 0 <==> Cut(s1, n) == Cut(s2, n)
  {
    for i := 0 to n
      invariant SameSoFar(s1, s2, i)
    {
      NotYet(s1, n, i);
      NotYet(s2, n, i);
      Decided(s1, s2, n, i);
      if s1[i] != s2[i] || s1[i] == NUL {
        return s1[i] as int - s2[i] as int;
      }
    }
    CutWhole(s1, n);
    CutWhole(s2, n);
    r := 0;
  }

  predicate SameSoFar(s1: seq<byte>, s2: seq<byte>, i: nat) {
    i <= |s1| && i <= |s2| && s1[..i] == s2[..i] && NUL !in s1[..i]
  }

  /** One position of a comparison: a difference, a common end, or another equal byte. */
  lemma Decided(s1: seq<byte>, s2: seq<byte>, n: nat, i: nat)
    requires i < |s1| && i < |s2| && i < n && SameSoFar(s1, s2, i)
    ensures s1[i] != s2[i] ==> Cut(s1, n) != Cut(s2, n)
    ensures s1[i] == s2[i] == NUL ==> Cut(s1, n) == Cut(s2, n)
    ensures s1[i] == s2[i] != NUL ==> SameSoFar(s1, s2, i + 1) && (i + 1 == n ==> Cut(s1, n) == Cut(s2, n))
  {
    if s1[i] != s2[i] || s1[i] == NUL {
      Stops(s1, s2, n, i);
    } else {
      GoesOn(s1, s2, n, i);
    }
  }

  lemma Stops(s1: seq<byte>, s2: seq<byte>, n: nat, i: nat)
    requires i < |s1| && i < |s2| && i < n && SameSoFar(s1, s2, i) && (s1[i] != s2[i] || s1[i] == NUL)
    ensures Cut(s1, n) == Cut(s2, n) <==> s1[i] == s2[i]
  {
    CutAt(s1, n, i);
    CutAt(s2, n, i);
    if s1[i] == s2[i] {
      assert Cut(s1, n) == s1[..i] && Cut(s2, n) == s2[..i];
    }
  }

  lemma GoesOn(s1: seq<byte>, s2: seq<byte>, n: nat, i: nat)
    requires i < |s1| && i < |s2| && i < n && SameSoFar(s1, s2, i) && s1[i] == s2[i] != NUL
    ensures SameSoFar(s1, s2, i + 1) && (i + 1 == n ==> Cut(s1, n) == Cut(s2, n))
  {
    assert s1[..i + 1] == s1[..i] + [s1[i]] && s2[..i + 1] == s2[..i] + [s2[i]];
    if i + 1 == n {
      CutWhole(s1, n);
      CutWhole(s2, n);
    }
  }

  lemma NotYet(s: seq<byte>, n: nat, i: nat)
    requires i <= |s| && i < n && NUL !in s[..i] && (n <= |s| || NUL in s)
    ensures i < |s|
  {
    assert s[..|s|] == s;
  }

  /** Before position `i` nothing is cut; at `i` the string goes on or ends. */
  lemma CutAt(s: seq<byte>, n: nat, i: nat)
    requires i < |s| && i < n && NUL !in s[..i]
    ensures |Cut(s, n)| >= i && (|Cut(s, n)| == i <==> s[i] == NUL)
    ensures s[i] != NUL ==> Cut(s, n)[i] == s[i]
  {
    CStringAtLeast(s, i);
    if s[i] == NUL {
      CStringIs(s, i);
    } else {
      assert s[..i + 1] == s[..i] + [s[i]];
      CStringAtLeast(s, i + 1);
    }
  }

  lemma CutWhole(s: seq<byte>, n: nat)
    requires n <= |s| && NUL !in s[..n]
    ensures Cut(s, n) == s[..n]
  {
    CStringAtLeast(s, n);
  }

  /** The first entry that strncmp cannot tell from `fname`, or |ds|. */
  function Find(ds: seq<Dentry>, fname: seq<byte>): (k: nat)
    ensures k <= |ds|
    ensures forall j :: 0 <= j < k ==> Cut(fname, NAME_MAX) != Cut(ds[j].name, NAME_MAX)
    ensures k < |ds| ==> Cut(fname, NAME_MAX) == Cut(ds[k].name, NAME_MAX)
  {
    if ds == [] || Cut(fname, NAME_MAX) == Cut(ds[0].name, NAME_MAX) then 0
    else 1 + Find(ds[1..], fname)
  }

  function Lookup(img: Image, fname: seq<byte>): Option<Dentry> {
    if |CString(fname)| > NAME_MAX || Find(img.dentries, fname) == |img.dentries| then None
    else Some(img.dentries[Find(img.dentries, fname)])
  }

  predicate DistinctNames(ds: seq<Dentry>) {
    forall i, j :: 0 <= i < j < |ds| ==> NameOf(ds[i]) != NameOf(ds[j])
  }

  /** Names of more than 32 bytes are refused. Of distinct names, exactly the one that is asked for is found. */
  lemma LookupIs(img: Image, fname: seq<byte>)
    requires img.Valid()
    ensures |CString(fname)| > 32 ==> Lookup(img, fname) == None
    ensures DistinctNames(img.dentries) ==> forall d :: Lookup(img, fname) == Some(d) <==>
              d in img.dentries && NameOf(d) == CString(fname)
  {
    var ds, c := img.dentries, CString(fname);
    assert forall j :: 0 <= j < |ds| ==> Cut(ds[j].name, NAME_MAX) == NameOf(ds[j]);
    if |c| <= 32 && DistinctNames(ds) {
      assert c[..|c|] == c && Cut(fname, NAME_MAX) == c;
      forall d ensures Lookup(img, fname) == Some(d) <==> d in ds && NameOf(d) == c {
        if d in ds && NameOf(d) == c {
          var k :| 0 <= k < |ds| && ds[k] == d;
          assert Find(ds, fname) <= k;
        }
      }
    }
  }

  method ReadDentryByName(img: Image, fname: seq<byte>) returns (r: Option<Dentry>)
    requires img.Valid() && NUL in fname
    ensures r == Lookup(img, fname)
    ensures r.Some? && r.value.ftype.RegularFile? ==> img.Sound(r.value.inode)
    ensures |CString(fname)| > 32 ==> r == None
    ensures DistinctNames(img.dentries) ==>
              forall d :: r == Some(d) <==> d in img.dentries && NameOf(d) == CString(fname)
  {
    LookupIs(img, fname);
    var len := Strlen(fname);
    if len > NAME_MAX {
      return None;
    }
    for i := 0 to |img.dentries|
      invariant forall j :: 0 <= j < i ==> Cut(fname, NAME_MAX) != Cut(img.dentries[j].name, NAME_MAX)
    {
      var found := Strncmp(fname, img.dentries[i].name, NAME_MAX);
      if found == 0 {
        return Some(img.dentries[i]);
      }
    }
    r := None;
  }

  /** Every listed name, full 32-byte ones included, opens its own entry once it is NUL-terminated. */
  lemma ListedNameOpensEntry(img: Image, k: nat, rest: seq<byte>)
    requires img.Valid() && DistinctNames(img.dentries) && k < |img.dentries|
    ensures Lookup(img, NameOf(img.dentries[k]) + [NUL] + rest) == Some(img.dentries[k])
  {
    var ds := img.dentries;
    var fname := NameOf(ds[k]) + [NUL] + rest;
    assert fname[..|NameOf(ds[k])|] == NameOf(ds[k]);
    CStringIs(fname, |NameOf(ds[k])|);
    assert forall j :: 0 <= j < |ds| ==> Cut(ds[j].name, NAME_MAX) == NameOf(ds[j]);
    assert Cut(fname, NAME_MAX) == NameOf(ds[k]);
    var f := Find(ds, fname);
    assert f <= k;
  }

  // ---- File descriptors ---------------------------------------------------------------

  datatype Kind = Stdin | Stdout | Rtc | Directory | File

  datatype Fd = Fd(kind: Kind, inode: nat, pos: nat, inUse: bool)

  function KindOf(t: FileType): Kind {
    match t
    case RtcDevice => Rtc
    case DirectoryFile => Directory
    case RegularFile => File
  }

  /** `now` is `was` with the bytes `w` stored at `at`. */
  ghost predicate Filled(now: seq<byte>, was: seq<byte>, at: nat, w: seq<byte>) {
    && |now| == |was| && at + |w| <= |was|
    && forall j :: 0 <= j < |now| ==> now[j] == if at <= j < at + |w| then w[j - at] else was[j]
  }

  lemma Slices(now: seq<byte>, was: seq<byte>, at: nat, all: seq<byte>, n: nat)
    requires n <= |all| && Filled(now, was, at, all[..n])
    ensures now[at..at + n] == all[..n] && all == now[at..at + n] + all[n..]
  {
  }

  /** The names from entry `pos` on, as far as the first empty one. */
  function Names(ds: seq<Dentry>, pos: nat): seq<byte>
    decreases |ds| - pos
  {
    if pos >= |ds| || NameOf(ds[pos]) == [] then [] else NameOf(ds[pos]) + Names(ds, pos + 1)
  }

  /** What reading an entry from its start yields. */
  ghost function TextOf(img: Image, d: Dentry): seq<byte>
    requires img.Valid() && (d.ftype.RegularFile? ==> img.Sound(d.inode))
  {
    match d.ftype
    case RtcDevice => []
    case DirectoryFile => Names(img.dentries, 0)
    case RegularFile => img.Content(d.inode)
  }

  /** What file_read returns. */
  function ReadCount(left: nat, nbytes: nat): nat {
    if 0 < nbytes <= left then nbytes else left
  }

  /** file_read counts as a read should exactly when it is asked for something or nothing is left. */
  lemma ReadCountIff(left: nat, nbytes: nat)
    ensures ReadCount(left, nbytes) == Min(nbytes, left) <==> nbytes > 0 || left == 0
    ensures ReadCount(left, 0) == left
  {
  }

  /** The first free descriptor, or 8. */
  function FirstFree(fds: seq<Fd>): (k: nat)
    ensures k <= |fds| && (k < |fds| ==> !fds[k].inUse)
    ensures forall j :: 0 <= j < k ==> fds[j].inUse
  {
    if fds == [] || !fds[0].inUse then 0 else 1 + FirstFree(fds[1..])
  }

  class Process {
    const img: Image
    const fds: array<Fd>

    ghost predicate Valid()
      reads this, fds
    {
      && img.Valid() && fds.Length == FDS && fds[0].inUse && fds[1].inUse
      && (forall i :: 0 <= i < FDS && fds[i].inUse && fds[i].kind.File? ==>
            2 <= i && img.Sound(fds[i].inode) && fds[i].pos <= img.inodes[fds[i].inode].length)
    }

    /** setup_fd: stdin and stdout in use, six descriptors free. */
    constructor (img: Image)
      requires img.Valid()
      ensures Valid() && fresh(fds) && this.img == img
      ensures fds[0] == Fd(Stdin, 0, 0, true) && fds[1] == Fd(Stdout, 0, 0, true)
      ensures forall i :: 2 <= i < FDS ==> !fds[i].inUse
    {
      this.img := img;
      fds := new Fd[FDS](i requires 0 <= i => Fd(if i == 0 then Stdin else Stdout, 0, 0, i < 2));
    }

    ghost predicate IsOpen(fd: int, kind: Kind)
      requires Valid()
      reads this, fds
    {
      0 <= fd < FDS && fds[fd].inUse && fds[fd].kind == kind
    }

    /** What is left to read of an open file. */
    ghost function Rest(fd: int): (s: seq<byte>)
      requires Valid() && IsOpen(fd, File)
      reads this, fds
    {
      img.Content(fds[fd].inode)[fds[fd].pos..]
    }

    /** What successive reads of a descriptor yield until one returns 0. */
    ghost function Unread(fd: int): seq<byte>
      requires Valid() && 0 <= fd < FDS && fds[fd].inUse
      reads this, fds
    {
      match fds[fd].kind
      case File => Rest(fd)
      case Directory => Names(img.dentries, fds[fd].pos)
      case _ => []
    }

    /** syscall_open: the lowest free descriptor, at position 0 of the entry's inode. */
    method Open(fname: seq<byte>) returns (fd: int)
      requires Valid() && NUL in fname
      modifies fds
      ensures Valid()
      ensures var d, k := Lookup(img, fname), FirstFree(old(fds[..]));
              if d == None || k == FDS then fd == -1 && fds[..] == old(fds[..])
              else fd == k && fds[..] == old(fds[..])[k := Fd(KindOf(d.value.ftype), d.value.inode, 0, true)]
      ensures |CString(fname)| > 32 ==> fd == -1 && fds[..] == old(fds[..])
      ensures DistinctNames(img.dentries) && fd != -1 ==>
                exists d :: d in img.dentries && NameOf(d) == CString(fname)
      ensures DistinctNames(img.dentries) ==> forall d :: d in img.dentries && NameOf(d) == CString(fname) ==>
                if FirstFree(old(fds[..])) == 8 then fd == -1
                else fd == FirstFree(old(fds[..])) && fds[fd] == Fd(KindOf(d.ftype), d.inode, 0, true)
    {
      LookupIs(img, fname);
      var d := ReadDentryByName(img, fname);
      if d == None {
        return -1;
      }
      fd := 0;
      while fds[fd].inUse
        invariant 0 <= fd < FDS && forall j :: 0 <= j < fd ==> fds[j].inUse
        decreases FDS - fd
      {
        fd := fd + 1;
        if fd == FDS {
          return -1;
        }
      }
      fds[fd] := Fd(KindOf(d.value.ftype), d.value.inode, 0, true);
    }

    /** syscall_close: stdin and stdout stay open. */
    method Close(fd: int) returns (r: int)
      requires Valid()
      modifies fds
      ensures Valid()
      ensures if fd < 2 || fd >= FDS || !old(fds[fd]).inUse then r == -1 && fds[..] == old(fds[..])
              else r == 0 && fds[..] == old(fds[..])[fd := old(fds[fd]).(inode := 0, pos := 0, inUse := false)]
    {
      if fd < 2 || fd >= FDS || !fds[fd].inUse {
        return -1;
      }
      fds[fd] := fds[fd].(inUse := false, pos := 0, inode := 0);
      r := 0;
    }

    /** file_read: the next bytes of the file; a request for no bytes skips to its end. */
    method FileRead(fd: int, buf: array<byte>, at: nat, nbytes: nat) returns (r: int)
      requires Valid() && IsOpen(fd, File) && at + nbytes <= buf.Length
      modifies fds, buf
      ensures Valid() && r == ReadCount(|old(Rest(fd))|, nbytes)
      ensures fds[..] == old(fds[..])[fd := old(fds[fd]).(pos := old(fds[fd]).pos + r)]
      ensures Rest(fd) == old(Rest(fd))[r..]
      ensures Filled(buf[..], old(buf[..]), at, old(Rest(fd))[..Min(nbytes, r)])
    {
      var f := fds[fd];
      ghost var rest, was := Rest(fd), buf[..];
      var bytes := ReadData(img, f.inode, f.pos, buf, at, nbytes);
      Sliced(img, f.inode, f.pos, rest, buf[..], was, at, nbytes);
      var left := img.inodes[f.inode].length - f.pos;
      if bytes == 0 {
        fds[fd] := f.(pos := f.pos + left);
        r := left;
      } else {
        fds[fd] := f.(pos := f.pos + nbytes);
        r := bytes;
      }
      assert Rest(fd) == rest[r..];
    }

    /** dir_read: the next name, whatever size was asked for, without a terminator; 0 at the end. */
    method DirRead(fd: int, buf: array<byte>, at: nat) returns (r: int)
      requires Valid() && IsOpen(fd, Directory) && at + NAME_MAX <= buf.Length
      modifies fds, buf
      ensures Valid()
      ensures old(fds[fd]).pos >= |img.dentries| ==> r == 0 && fds[..] == old(fds[..]) && buf[..] == old(buf[..])
      ensures old(fds[fd]).pos < |img.dentries| ==>
                var name := NameOf(img.dentries[old(fds[fd]).pos]);
                && r == |name| <= NAME_MAX
                && fds[..] == old(fds[..])[fd := old(fds[fd]).(pos := old(fds[fd]).pos + 1)]
                && Filled(buf[..], old(buf[..]), at, name)
    {
      var f := fds[fd];
      if |img.dentries| <= f.pos {
        return 0;
      }
      var d := img.dentries[f.pos];
      var len := Strlen(Raw(d));
      len := if len > NAME_MAX then NAME_MAX else len;
      RawName(d);
      for i := 0 to len
        invariant fds[..] == old(fds[..]) && Filled(buf[..], old(buf[..]), at, d.name[..i])
      {
        buf[at + i] := d.name[i];
      }
      fds[fd] := f.(pos := f.pos + 1);
      r := len;
    }

    /** syscall_read, for every descriptor but standard input. */
    method Read(fd: int, buf: array<byte>, at: nat, nbytes: int) returns (r: int)
      requires Valid() && !IsOpen(fd, Stdin)
      requires at + nbytes <= buf.Length && (IsOpen(fd, Directory) ==> at + NAME_MAX <= buf.Length)
      modifies fds, buf
      ensures Valid()
      ensures Refused(old(fds[..]), fd, nbytes) ==> r == -1 && fds[..] == old(fds[..]) && buf[..] == old(buf[..])
      ensures !Refused(old(fds[..]), fd, nbytes) && old(fds[fd]).kind.Rtc? ==>
                r == 0 && fds[..] == old(fds[..]) && buf[..] == old(buf[..])
      ensures !Refused(old(fds[..]), fd, nbytes) && old(fds[fd]).kind.File? ==>
                && r == ReadCount(|old(Rest(fd))|, nbytes)
                && fds[..] == old(fds[..])[fd := old(fds[fd]).(pos := old(fds[fd]).pos + r)]
                && Rest(fd) == old(Rest(fd))[r..]
                && Filled(buf[..], old(buf[..]), at, old(Rest(fd))[..Min(nbytes, r)])
      ensures !Refused(old(fds[..]), fd, nbytes) && old(fds[fd]).kind.Directory? &&
              old(fds[fd]).pos >= |img.dentries| ==>
                r == 0 && fds[..] == old(fds[..]) && buf[..] == old(buf[..])
      ensures !Refused(old(fds[..]), fd, nbytes) && old(fds[fd]).kind.Directory? &&
              old(fds[fd]).pos < |img.dentries| ==>
                var name := NameOf(img.dentries[old(fds[fd]).pos]);
                && r == |name| <= NAME_MAX
                && fds[..] == old(fds[..])[fd := old(fds[fd]).(pos := old(fds[fd]).pos + 1)]
                && Filled(buf[..], old(buf[..]), at, name)
    {
      if fd < 0 || fd >= FDS || nbytes < 0 || !fds[fd].inUse {
        return -1;
      }
      match fds[fd].kind
      case Stdin => assert false;
      case Stdout => r := -1;
      case Rtc => r := 0;
      case Directory => r := DirRead(fd, buf, at);
      case File => r := FileRead(fd, buf, at, nbytes);
    }

    /** Successive reads of a file: the pieces concatenate to what was asked for or to all that is left. */
    method ReadPieces(fd: int, sizes: seq<nat>) returns (pieces: seq<seq<byte>>)
      requires Valid() && IsOpen(fd, File) && forall n <- sizes :: n > 0
      modifies fds
      ensures Valid() && OnlyMoved(fds[..], old(fds[..]), fd) && IsOpen(fd, File)
      ensures pieces == Reads(old(Rest(fd)), sizes)
      ensures Concat(pieces) == old(Rest(fd))[..Min(Sum(sizes), |old(Rest(fd))|)]
      ensures Sum(sizes) >= |old(Rest(fd))| ==> Concat(pieces) == old(Rest(fd)) && Rest(fd) == []
    {
      ghost var rest, left := Rest(fd), Rest(fd);
      pieces := [];
      ReadsConcatenate(rest, sizes);
      for i := 0 to |sizes|
        invariant Valid() && OnlyMoved(fds[..], old(fds[..]), fd) && IsOpen(fd, File) && left == Rest(fd)
        invariant pieces + Reads(left, sizes[i..]) == Reads(rest, sizes)
        invariant |left| <= Sum(sizes[i..]) <==> |rest| <= Sum(sizes)
      {
        assert sizes[i] in sizes && sizes[i..][1..] == sizes[i + 1..];
        var piece := ReadPiece(fd, sizes[i]);
        Assoc(pieces, [piece], Reads(Rest(fd), sizes[i + 1..]));
        pieces, left := pieces + [piece], Rest(fd);
      }
    }

    method ReadPiece(fd: int, n: nat) returns (piece: seq<byte>)
      requires Valid() && IsOpen(fd, File) && n > 0
      modifies fds
      ensures Valid() && OnlyMoved(fds[..], old(fds[..]), fd) && IsOpen(fd, File)
      ensures var k := Min(n, |old(Rest(fd))|);
              piece == old(Rest(fd))[..k] && Rest(fd) == old(Rest(fd))[k..]
    {
      var buf := new byte[n];
      ghost var was, rest := buf[..], Rest(fd);
      var r := FileRead(fd, buf, 0, n);
      Slices(buf[..], was, 0, rest, r);
      piece := buf[0..r];
    }

    /** Reading a directory to its end lists every entry once, in order; the next read returns 0 again. */
    method ListNames(fd: int) returns (names: seq<seq<byte>>)
      requires Valid() && IsOpen(fd, Directory) && fds[fd].pos == 0 && forall d <- img.dentries :: NameOf(d) != []
      modifies fds
      ensures Valid() && OnlyMoved(fds[..], old(fds[..]), fd) && fds[fd].pos == |img.dentries|
      ensures |names| == |img.dentries| && forall k :: 0 <= k < |names| ==> names[k] == NameOf(img.dentries[k])
    {
      var buf := new byte[NAME_MAX];
      names := [];
      var cnt := NextEntry(fd, buf);
      while cnt != 0
        invariant Valid() && IsOpen(fd, Directory) && OnlyMoved(fds[..], old(fds[..]), fd)
        invariant |names| <= |img.dentries| && forall k :: 0 <= k < |names| ==> names[k] == NameOf(img.dentries[k])
        invariant if cnt == 0 then |names| == |img.dentries| == fds[fd].pos else
                    |names| + 1 == fds[fd].pos <= |img.dentries| && 0 < cnt <= NAME_MAX &&
                    buf[..cnt] == NameOf(img.dentries[|names|])
        decreases |img.dentries| - |names|
      {
        names := names + [buf[..cnt]];
        cnt := NextEntry(fd, buf);
      }
    }

    method NextEntry(fd: int, buf: array<byte>) returns (cnt: int)
      requires Valid() && IsOpen(fd, Directory) && buf.Length == NAME_MAX && forall d <- img.dentries :: NameOf(d) != []
      modifies fds, buf
      ensures Valid() && IsOpen(fd, Directory) && OnlyMoved(fds[..], old(fds[..]), fd)
      ensures old(fds[fd].pos) >= |img.dentries| ==> cnt == 0 && fds[fd].pos == old(fds[fd].pos)
      ensures old(fds[fd].pos) < |img.dentries| ==>
                && 0 < cnt <= NAME_MAX && fds[fd].pos == old(fds[fd].pos) + 1
                && buf[..cnt] == NameOf(img.dentries[old(fds[fd].pos)])
    {
      ghost var was, k := buf[..], fds[fd].pos;
      cnt := DirRead(fd, buf, 0);
      if k < |img.dentries| {
        var name := NameOf(img.dentries[k]);
        assert img.dentries[k] in img.dentries && name[..cnt] == name;
        Slices(buf[..], was, 0, name, cnt);
      }
    }

    /** A read of a positive size: the next bytes of the descriptor, or 0 when there are none. */
    method ReadSome(fd: int, buf: array<byte>, at: nat, nbytes: nat) returns (r: nat)
      requires Valid() && 0 <= fd < FDS && fds[fd].inUse && !fds[fd].kind.Stdin? && !fds[fd].kind.Stdout?
      requires nbytes > 0 && at + nbytes <= buf.Length && (fds[fd].kind.Directory? ==> at + NAME_MAX <= buf.Length)
      modifies fds, buf
      ensures Valid() && OnlyMoved(fds[..], old(fds[..]), fd)
      ensures at + r <= buf.Length && Filled(buf[..], old(buf[..]), at, buf[at..at + r])
      ensures r == 0 ==> old(Unread(fd)) == []
      ensures r > 0 ==> old(Unread(fd)) == buf[at..at + r] + Unread(fd)
      ensures !fds[fd].kind.Directory? ==> r == Min(nbytes, |old(Unread(fd))|) && Unread(fd) == old(Unread(fd))[r..]
    {
      ghost var unread, was, f := Unread(fd), buf[..], fds[fd];
      var n := Read(fd, buf, at, nbytes);
      if f.kind.File? {
        Slices(buf[..], was, at, unread, n);
      } else if f.kind.Directory? {
        if f.pos < |img.dentries| {
          Slices(buf[..], was, at, unread, n);
        }
      }
      r := n;
    }
  }

  /** Only the position of one descriptor differs. */
  ghost predicate OnlyMoved(now: seq<Fd>, was: seq<Fd>, fd: int) {
    && |now| == |was| && 0 <= fd < |was| && now[fd] == was[fd].(pos := now[fd].pos)
    && forall i :: 0 <= i < |was| && i != fd ==> now[i] == was[i]
  }

  /** What read_data leaves in the buffer is the next piece of the flat file. */
  lemma Sliced(img: Image, inode: nat, pos: nat, rest: seq<byte>, now: seq<byte>, was: seq<byte>, at: nat, n: nat)
    requires img.Valid() && img.Sound(inode) && pos <= img.inodes[inode].length && rest == img.Content(inode)[pos..]
    requires |now| == |was| && at + n <= |was|
    requires forall j :: 0 <= j < |now| && !(at <= j < at + n) ==> now[j] == was[j]
    requires forall j :: at <= j < at + n ==>
               now[j] == if pos + (j - at) < img.inodes[inode].length then img.ByteAt(inode, pos + (j - at)) else was[j]
    ensures Filled(now, was, at, rest[..Min(n, |rest|)])
  {
  }

  predicate Refused(fds: seq<Fd>, fd: int, nbytes: int) {
    fd < 0 || fd >= |fds| || nbytes < 0 || !fds[fd].inUse || fds[fd].kind.Stdout?
  }

  /** strlen over an entry in memory, clamped to 32, is the length of its name. */
  lemma RawName(d: Dentry)
    requires |d.name| == NAME_MAX
    ensures NUL in Raw(d) && Min(|CString(Raw(d))|, NAME_MAX) == |NameOf(d)|
  {
    assert Raw(d)[NAME_MAX + 3] == NUL;
    var n := |NameOf(d)|;
    assert Raw(d)[..n] == d.name[..n];
    if n < NAME_MAX {
      CStringIs(Raw(d), n);
    } else {
      CStringAtLeast(Raw(d), n);
    }
  }

  // ---- Any sequence of reads ----------------------------------------------------------

  /** The pieces returned by successive reads of the given sizes. */
  function Reads(rest: seq<byte>, sizes: seq<nat>): seq<seq<byte>> {
    if sizes == [] then []
    else [rest[..Min(sizes[0], |rest|)]] + Reads(rest[Min(sizes[0], |rest|)..], sizes[1..])
  }

  function Concat(pieces: seq<seq<byte>>): seq<byte> {
    if pieces == [] then [] else pieces[0] + Concat(pieces[1..])
  }

  function Sum(sizes: seq<nat>): nat {
    if sizes == [] then 0 else sizes[0] + Sum(sizes[1..])
  }

  /** Whatever the sizes, the pieces spell a prefix of the file: all of it once enough was asked for. */
  lemma {:induction false} ReadsConcatenate(rest: seq<byte>, sizes: seq<nat>)
    ensures Concat(Reads(rest, sizes)) == rest[..Min(Sum(sizes), |rest|)]
  {
    if sizes != [] {
      var n := Min(sizes[0], |rest|);
      ReadsConcatenate(rest[n..], sizes[1..]);
      assert Reads(rest, sizes)[1..] == Reads(rest[n..], sizes[1..]);
      var m := Min(Sum(sizes), |rest|);
      SplitPrefix(rest, n, m);
    }
  }

  lemma SplitPrefix(s: seq<byte>, n: nat, m: nat)
    requires n <= m <= |s|
    ensures s[..m] == s[..n] + s[n..][..m - n]
  {
  }
}
