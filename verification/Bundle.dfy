/** The artifact of a build: the executable, an archive, and a trailer that finds it again. */
module Bundle {
  import opened Basics

  /** `NITRBNDL` */
  const MAGIC: Bytes := [0x4E, 0x49, 0x54, 0x52, 0x42, 0x4E, 0x44, 0x4C]

  const TRAILER: nat := 16

  /** The `n` low bytes of a number, the lowest first. */
  function LittleEndian(x: nat, n: nat): (bytes: Bytes)
    ensures |bytes| == n
  {
    if n == 0 then [] else [(x % 256) as byte] + LittleEndian(x / 256, n - 1)
  }

  function FromLittleEndian(bytes: Bytes): nat {
    if bytes == [] then 0 else bytes[0] as nat + 256 * FromLittleEndian(bytes[1..])
  }

  function Power(n: nat): nat { if n == 0 then 1 else 256 * Power(n - 1) }

  lemma {:induction false} LittleEndianReads(x: nat, n: nat)
    requires x < Power(n)
    ensures FromLittleEndian(LittleEndian(x, n)) == x
  {
    if n > 0 {
      LittleEndianReads(x / 256, n - 1);
      assert LittleEndian(x, n)[1..] == LittleEndian(x / 256, n - 1);
    }
  }

  lemma LowByte(b: byte, high: nat)
    ensures (b as nat + 256 * high) % 256 == b as nat && (b as nat + 256 * high) / 256 == high
  {
  }

  lemma {:induction false} LittleEndianPrints(bytes: Bytes)
    ensures LittleEndian(FromLittleEndian(bytes), |bytes|) == bytes && FromLittleEndian(bytes) < Power(|bytes|)
  {
    if bytes != [] {
      var rest := bytes[1..];
      LittleEndianPrints(rest);
      LowByte(bytes[0], FromLittleEndian(rest));
      assert [bytes[0]] + rest == bytes;
    }
  }

  lemma EightBytes()
    ensures Power(8) == U64_MAX + 1
  {
    assert Power(4) == 0x1_0000_0000;
    assert Power(8) == 256 * 256 * 256 * 256 * Power(4);
  }

  datatype Corrupt = BadLength

  /** The archive appended to a file: none without the magic, an error when its length
      is zero or more than the file has. */
  function ReadAppended(file: Bytes): Result<Option<Bytes>, Corrupt> {
    if |file| < TRAILER then Ok(None)
    else
      var body, trailer := file[..|file| - TRAILER], file[|file| - TRAILER..];
      if trailer[8..] != MAGIC then Ok(None)
      else
        var len := FromLittleEndian(trailer[..8]);
        if len == 0 || len > |body| then Err(BadLength)
        else Ok(Some(body[|body| - len..]))
  }

  /** The file a build writes. */
  function Built(exe: Bytes, archive: Bytes): Bytes {
    exe + archive + (LittleEndian(|archive|, 8) + MAGIC)
  }

  lemma BuiltParts(exe: Bytes, archive: Bytes)
    ensures var file := Built(exe, archive);
      && |file| >= TRAILER && file[..|file| - TRAILER] == exe + archive
      && file[|file| - TRAILER..][..8] == LittleEndian(|archive|, 8) && file[|file| - TRAILER..][8..] == MAGIC
  {
    assert |LittleEndian(|archive|, 8) + MAGIC| == TRAILER;
    assert Built(exe, archive)[|exe + archive|..] == LittleEndian(|archive|, 8) + MAGIC;
  }

  /** Whatever the executable ends with, reading a build finds its archive; an empty one is
      taken for a corrupt file. */
  lemma ReadBuilt(exe: Bytes, archive: Bytes)
    requires |archive| <= U64_MAX
    ensures ReadAppended(Built(exe, archive)) == if archive == [] then Err(BadLength) else Ok(Some(archive))
  {
    BuiltParts(exe, archive);
    EightBytes();
    LittleEndianReads(|archive|, 8);
    assert (exe + archive)[|exe|..] == archive;
  }

  /** An archive is found in a file exactly when the file is some build of it. */
  lemma FoundIffBuilt(file: Bytes, archive: Bytes)
    requires |archive| <= U64_MAX
    ensures ReadAppended(file) == Ok(Some(archive)) <==> archive != [] && exists exe :: file == Built(exe, archive)
  {
    if ReadAppended(file) == Ok(Some(archive)) {
      var body, trailer := file[..|file| - TRAILER], file[|file| - TRAILER..];
      LittleEndianPrints(trailer[..8]);
      assert trailer == trailer[..8] + trailer[8..];
      var exe := body[..|body| - |archive|];
      assert body == exe + archive && file == body + trailer;
      assert file == Built(exe, archive);
    }
    if archive != [] && exists exe :: file == Built(exe, archive) {
      var exe :| file == Built(exe, archive);
      ReadBuilt(exe, archive);
    }
  }

  datatype BuildError = AlreadyBundled | BadExecutable

  /** What a build writes when this executable runs it. */
  function Build(exe: Bytes, archive: Bytes): Result<Bytes, BuildError> {
    match ReadAppended(exe)
    case Err(_) => Err(BadExecutable)
    case Ok(Some(_)) => Err(AlreadyBundled)
    case Ok(None) => Ok(Built(exe, archive))
  }

  lemma ReadFrom(bytes: Bytes, at: nat)
    requires at < |bytes|
    ensures FromLittleEndian(bytes[at..]) == bytes[at] as nat + 256 * FromLittleEndian(bytes[at + 1..])
  {
    assert bytes[at..][1..] == bytes[at + 1..];
  }

  /** Eight bytes hold a length, the lowest first. */
  lemma LengthIsSpelled(x: nat)
    requires x <= U64_MAX
    ensures var b := LittleEndian(x, 8);
      x == b[0] as nat + 0x100 * b[1] as nat + 0x1_0000 * b[2] as nat + 0x100_0000 * b[3] as nat
           + 0x1_0000_0000 * b[4] as nat + 0x100_0000_0000 * b[5] as nat + 0x1_0000_0000_0000 * b[6] as nat
           + 0x100_0000_0000_0000 * b[7] as nat
  {
    var b := LittleEndian(x, 8);
    EightBytes();
    LittleEndianReads(x, 8);
    assert b[0..] == b && b[8..] == [];
    ReadFrom(b, 0);
    ReadFrom(b, 1);
    ReadFrom(b, 2);
    ReadFrom(b, 3);
    ReadFrom(b, 4);
    ReadFrom(b, 5);
    ReadFrom(b, 6);
    ReadFrom(b, 7);
  }

  /** A build goes through exactly when the executable does not end with the eight
      letters of the magic, or is too short for a trailer; it then is the executable,
      the archive, eight bytes for the archive's length, and the magic. */
  lemma BuildsIff(exe: Bytes, archive: Bytes)
    requires |archive| <= U64_MAX
    ensures Build(exe, archive).Ok? <==>
      |exe| < 16 || exe[|exe| - 8..] != [0x4E, 0x49, 0x54, 0x52, 0x42, 0x4E, 0x44, 0x4C]
    ensures Build(exe, archive).Ok? ==>
      var artifact := Build(exe, archive).value;
      && |artifact| == |exe| + |archive| + 16
      && artifact[..|exe|] == exe && artifact[|exe|..|exe| + |archive|] == archive
      && artifact[|exe| + |archive|..][..8] == LittleEndian(|archive|, 8)
      && artifact[|exe| + |archive|..][8..] == [0x4E, 0x49, 0x54, 0x52, 0x42, 0x4E, 0x44, 0x4C]
  {
    if |exe| >= 16 {
      assert exe[|exe| - TRAILER..][8..] == exe[|exe| - 8..];
    }
    BuiltParts(exe, archive);
    assert (exe + archive)[..|exe|] == exe && (exe + archive)[|exe|..] == archive;
  }

  /** An artifact builds nothing further; the plain executable that built it is found in
      front of its archive. */
  lemma BuildsOnce(exe: Bytes, archive: Bytes, again: Bytes)
    requires Build(exe, archive).Ok? && archive != [] && |archive| <= U64_MAX
    ensures var artifact := Build(exe, archive).value;
      Build(artifact, again) == Err(AlreadyBundled) && artifact[..|artifact| - TRAILER - |archive|] == exe
  {
    ReadBuilt(exe, archive);
    BuiltParts(exe, archive);
    assert (exe + archive)[..|exe|] == exe;
  }
}
