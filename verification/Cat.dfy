/** The cat program, over the file system. */
module Cat {
  import opened Basics
  import opened Text
  import opened FileSystem

  function NotFound(): seq<byte> {
    Ascii("file not found\n")
  }

  /** The loop of main: everything left to read goes to standard output, and the loop ends. */
  method CopyOut(p: Process, fd: int) returns (out: seq<byte>)
    requires p.Valid() && 0 <= fd < FDS && p.fds[fd].inUse && !p.fds[fd].kind.Stdin? && !p.fds[fd].kind.Stdout?
    modifies p.fds
    ensures p.Valid() && out == old(p.Unread(fd))
  {
    var buf := new byte[1024];
    ghost var all := p.Unread(fd);
    out := [];
    var cnt := p.ReadSome(fd, buf, 0, 1024);
    while cnt != 0
      invariant p.Valid() && p.fds[fd].inUse && !p.fds[fd].kind.Stdin? && !p.fds[fd].kind.Stdout?
      invariant 0 <= cnt <= buf.Length
      invariant all == out + if cnt == 0 then [] else buf[..cnt] + p.Unread(fd)
      decreases |all| - |out|
    {
      out := out + buf[..cnt];
      assert all == out + p.Unread(fd);
      cnt := p.ReadSome(fd, buf, 0, 1024);
    }
  }

  /**
   * cat prints exactly the file, whatever its size; a message and 2 if there is no such file or no
   * free descriptor. (`out` is what reaches standard output.)
   */
  method Cat(p: Process, name: seq<byte>) returns (code: int, out: seq<byte>)
    requires p.Valid() && NUL in name
    modifies p.fds
    ensures p.Valid()
    ensures var d := Lookup(p.img, name);
            if d == None || FirstFree(old(p.fds[..])) == FDS then code == 2 && out == NotFound()
            else
              && (d.value.ftype.RegularFile? ==> p.img.Sound(d.value.inode))
              && code == 0 && out == TextOf(p.img, d.value)
    ensures |CString(name)| > 32 ==> code == 2 && out == NotFound()
    ensures DistinctNames(p.img.dentries) ==> forall d :: d in p.img.dentries && NameOf(d) == CString(name) ==>
              if FirstFree(old(p.fds[..])) == 8 then code == 2
              else code == 0 && (d.ftype.RegularFile? ==> p.img.Sound(d.inode) && out == p.img.Content(d.inode))
    ensures DistinctNames(p.img.dentries) && code == 0 ==>
              exists d :: d in p.img.dentries && NameOf(d) == CString(name)
  {
    LookupIs(p.img, name);
    var fd := p.Open(name);
    if fd == -1 {
      return 2, NotFound();
    }
    out := CopyOut(p, fd);
    code := 0;
  }
}
