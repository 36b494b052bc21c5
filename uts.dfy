/** The `uname` system call (kernel/src/syscall/uts.rs): six fixed-size,
    NUL-padded name fields written to a user buffer.

    Writing the structure to user memory is the process VM's `write_val`,
    which is not part of this model: its failure is the parameter
    `writeError`, and on success the bytes written are the result. */
module Uts {

  import opened Common
  import opened Errors

  /** Each field is 65 bytes. */
  const UTS_LEN: nat := 65

  /** The bytes of the fixed names, in ASCII: "NexusOS", "localhost",
      "0.1.0", "0.1.0", "riscv32" and the empty domain name. */
  const SYSNAME: seq<u8> := [78, 101, 120, 117, 115, 79, 83]
  const NODENAME: seq<u8> := [108, 111, 99, 97, 108, 104, 111, 115, 116]
  const RELEASE: seq<u8> := [48, 46, 49, 46, 48]
  const VERSION: seq<u8> := [48, 46, 49, 46, 48]
  const MACHINE: seq<u8> := [114, 105, 115, 99, 118, 51, 50]
  const DOMAINNAME: seq<u8> := []

  /** The system name is the character codes of "NexusOS". */
  lemma SysnameIsNexusOS()
    ensures |SYSNAME| == |"NexusOS"|
    ensures forall i :: 0 <= i < |SYSNAME| ==> SYSNAME[i] == "NexusOS"[i] as int
  {
  }

  function Zeros(n: nat): (z: seq<u8>)
    ensures |z| == n && forall i :: 0 <= i < n ==> z[i] == 0
  {
    if n == 0 then [] else [0] + Zeros(n - 1)
  }

  /** What `fill` produces: at most `UTS_LEN - 1` bytes of the source, then
      zeros up to `UTS_LEN`. */
  function Filled(src: seq<u8>): seq<u8>
  {
    var n := Min(|src|, UTS_LEN - 1);
    src[..n] + Zeros(UTS_LEN - n)
  }

  /** `fill`: the source copied into a zeroed buffer of `UTS_LEN` bytes,
      keeping the last byte for the terminating NUL. */
  method Fill(src: seq<u8>) returns (r: seq<u8>)
    ensures r == Filled(src)
  {
    var buf := new u8[UTS_LEN](_ => 0);
    var len := Min(|src|, UTS_LEN - 1);
    for i := 0 to len
      invariant buf[..i] == src[..i]
      invariant forall j :: i <= j < UTS_LEN ==> buf[j] == 0
    {
      buf[i] := src[i];
    }
    r := buf[..];
    assert r == src[..len] + Zeros(UTS_LEN - len);
  }

  /** The bytes up to the first NUL, as a C reader sees a field. */
  function CString(b: seq<u8>): (s: seq<u8>)
    ensures |s| <= |b| && s == b[..|s|] && 0 !in s
  {
    if b == [] || b[0] == 0 then [] else [b[0]] + CString(b[1..])
  }

  /** A filled field is `UTS_LEN` bytes and always ends in a NUL, and every
      byte past the copied prefix is zero. */
  lemma FilledShape(src: seq<u8>)
    ensures var f := Filled(src); var n := Min(|src|, UTS_LEN - 1);
      && |f| == UTS_LEN && f[UTS_LEN - 1] == 0
      && f[..n] == src[..n]
      && forall i :: n <= i < UTS_LEN ==> f[i] == 0
  {
  }

  /** A C reader of a filled field gets the source back, cut to
      `UTS_LEN - 1` bytes, when the source holds no NUL. */
  lemma {:induction false} FilledReadsBack(src: seq<u8>)
    requires 0 !in src
    ensures CString(Filled(src)) == src[..Min(|src|, UTS_LEN - 1)]
  {
    var n := Min(|src|, UTS_LEN - 1);
    CStringPrefix(src[..n], Zeros(UTS_LEN - n));
  }

  lemma {:induction false} CStringPrefix(s: seq<u8>, z: seq<u8>)
    requires 0 !in s && z != [] && z[0] == 0
    ensures CString(s + z) == s
  {
    if s != [] {
      assert (s + z)[1..] == s[1..] + z;
      CStringPrefix(s[1..], z);
    } else {
      assert s + z == z;
    }
  }

  /** The structure written by `uname`. */
  datatype Utsname = Utsname(
    sysname: seq<u8>, nodename: seq<u8>, release: seq<u8>,
    version: seq<u8>, machine: seq<u8>, domainname: seq<u8>)

  /** The structure's bytes, the fields one after the other. */
  function Image(u: Utsname): seq<u8>
  {
    u.sysname + u.nodename + u.release + u.version + u.machine + u.domainname
  }

  /** The structure `Utsname::current` builds. */
  function CurrentSpec(): Utsname
  {
    Utsname(Filled(SYSNAME), Filled(NODENAME), Filled(RELEASE),
            Filled(VERSION), Filled(MACHINE), Filled(DOMAINNAME))
  }

  /** `Utsname::current`: each field filled from its constant. */
  method Current() returns (u: Utsname)
    ensures u == CurrentSpec()
  {
    var sysname := Fill(SYSNAME);
    var nodename := Fill(NODENAME);
    var release := Fill(RELEASE);
    var version := Fill(VERSION);
    var machine := Fill(MACHINE);
    var domainname := Fill(DOMAINNAME);
    u := Utsname(sysname, nodename, release, version, machine, domainname);
  }

  /** The structure is six fields of `UTS_LEN` bytes, and its system name
      reads as "NexusOS", its machine as "riscv32" and its domain name
      as empty. */
  lemma CurrentFields()
    ensures |Image(CurrentSpec())| == 6 * UTS_LEN
    ensures CString(CurrentSpec().sysname) == SYSNAME
    ensures CString(CurrentSpec().machine) == MACHINE
    ensures CString(CurrentSpec().domainname) == []
  {
    FilledReadsBack(SYSNAME);
    FilledReadsBack(MACHINE);
    FilledReadsBack(DOMAINNAME);
    assert SYSNAME[..7] == SYSNAME;
    assert MACHINE[..7] == MACHINE;
  }

  /** `do_uname`: EFAULT for a null buffer; otherwise the structure is
      written and the call returns 0, or the write's error. */
  method DoUname(bufPtr: nat, writeError: Option<Errno>) returns (r: Result<int, Errno>, written: seq<u8>)
    ensures bufPtr == 0 ==> r == Err(EFAULT) && written == []
    ensures bufPtr != 0 && writeError.Some? ==> r == Err(writeError.value) && written == []
    ensures bufPtr != 0 && writeError.None? ==> r == Ok(0) && written == Image(CurrentSpec())
  {
    if bufPtr == 0 {
      return Err(EFAULT), [];
    }
    var u := Current();
    if writeError.Some? {
      return Err(writeError.value), [];
    }
    return Ok(0), Image(u);
  }
}
