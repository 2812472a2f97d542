/**
 * The text handling of the local-disk volume plugin (local_disk.go): the `[disks]`/`[lvm]`
 * config file, random UUIDs, the post-processing of `blkid`, `df` and `vgs` output while a
 * disk or volume group is registered, the choice of volume source, provisioner defaults, the
 * provisioned path and the delete guard. The file is given as its lines; the output of each
 * command, the random bytes and the outcome of each file-system call are inputs.
 */
module LocalDisk {
  import opened Wrappers
  import opened GoText

  // ---------------------------------------------------------------------------
  // parseConfigFile
  // ---------------------------------------------------------------------------

  const DiskVolume := "disks"
  const LvmVolume := "lvm"

  /** A trimmed line that opens a section. */
  predicate IsHeader(line: string) {
    HasPrefix(line, "[") && HasSuffix(line, "]")
  }

  /** The section a header opens: its name when it is "disks" or "lvm", otherwise none (""). */
  function HeaderType(line: string): (t: string)
    ensures t == "" || t == DiskVolume || t == LvmVolume
  {
    var name := Trim(line, "[] ");
    if name == DiskVolume || name == LvmVolume then name else ""
  }

  /** The section in effect after the given lines: the one the last header opened. */
  function Section(lines: seq<string>): (t: string)
    ensures t == "" || t == DiskVolume || t == LvmVolume
  {
    if lines == [] then ""
    else
      var line := TrimSpace(lines[|lines| - 1]);
      if IsHeader(line) then HeaderType(line) else Section(lines[..|lines| - 1])
  }

  /** The entries a config collects, section by section, in file order. */
  function Parsed(lines: seq<string>): map<string, seq<string>>
  {
    if lines == [] then map[]
    else
      var init := lines[..|lines| - 1];
      var line := TrimSpace(lines[|lines| - 1]);
      var disks := Parsed(init);
      var t := Section(init);
      if IsHeader(line) || t == "" then disks
      else disks[t := (if t in disks then disks[t] else []) + [line]]
  }

  /** The trimmed lines collected under the section `t`, as a filter over the file. */
  function Collected(lines: seq<string>, t: string): seq<string>
  {
    if lines == [] then []
    else
      var init := lines[..|lines| - 1];
      var line := TrimSpace(lines[|lines| - 1]);
      Collected(init, t) + (if !IsHeader(line) && Section(init) == t && t != "" then [line] else [])
  }

  /** Only the two known sections can be keys of the parsed config. */
  lemma {:induction false} ParsedKeys(lines: seq<string>)
    ensures forall t :: t in Parsed(lines) ==> t == DiskVolume || t == LvmVolume
  {
    if lines != [] {
      ParsedKeys(lines[..|lines| - 1]);
    }
  }

  /**
   * The parsed map holds, for each section, exactly the non-header lines that follow one of
   * its headers, trimmed and in file order; a section with no such line is absent.
   */
  lemma {:induction false} ParsedIsCollected(lines: seq<string>, t: string)
    ensures t in Parsed(lines) <==> Collected(lines, t) != []
    ensures t in Parsed(lines) ==> Parsed(lines)[t] == Collected(lines, t)
  {
    if lines != [] {
      ParsedIsCollected(lines[..|lines| - 1], t);
    }
  }

  /** No valid header occurs in the lines: no section is ever open. */
  predicate NoSectionOpened(lines: seq<string>) {
    forall k :: 0 <= k <= |lines| ==> Section(lines[..k]) == ""
  }

  /** Lines read while no section is open are dropped. */
  lemma {:induction false} ParsedBeforeHeader(lines: seq<string>)
    requires NoSectionOpened(lines)
    ensures Parsed(lines) == map[]
  {
    if lines != [] {
      var init := lines[..|lines| - 1];
      assert Section(init) == "" by {
        assert lines[..|lines| - 1] == init;
      }
      forall k | 0 <= k <= |init| ensures Section(init[..k]) == "" {
        assert init[..k] == lines[..k];
      }
      ParsedBeforeHeader(init);
    }
  }

  /** Lines before the first valid header are ignored, whatever they hold. */
  lemma {:induction false} LinesBeforeHeaderIgnored(pre: seq<string>, rest: seq<string>)
    requires NoSectionOpened(pre)
    ensures Section(pre + rest) == Section(rest)
    ensures Parsed(pre + rest) == Parsed(rest)
  {
    if rest == [] {
      assert pre + rest == pre;
      assert pre[..|pre|] == pre;
      ParsedBeforeHeader(pre);
    } else {
      var init := rest[..|rest| - 1];
      assert (pre + rest)[..|pre + rest| - 1] == pre + init;
      assert (pre + rest)[|pre + rest| - 1] == rest[|rest| - 1];
      LinesBeforeHeaderIgnored(pre, init);
    }
  }

  /** What reading one more line does to the section and to the collected entries. */
  lemma ParseStep(lines: seq<string>, i: nat)
    requires i < |lines|
    ensures var line := TrimSpace(lines[i]);
      Section(lines[..i + 1]) == if IsHeader(line) then HeaderType(line) else Section(lines[..i])
    ensures var line := TrimSpace(lines[i]);
      var t := Section(lines[..i]);
      var disks := Parsed(lines[..i]);
      Parsed(lines[..i + 1]) == if IsHeader(line) || t == "" then disks else disks[t := (if t in disks then disks[t] else []) + [line]]
  {
    var upTo := lines[..i + 1];
    assert upTo[..i] == lines[..i] && upTo[i] == lines[i];
  }

  /**
   * `parseConfigFile` over the file's lines; `None` stands for a file that cannot be opened,
   * which gives an empty map.
   */
  method ParseConfigFile(file: Option<seq<string>>) returns (disks: map<string, seq<string>>)
    ensures file.None? ==> disks == map[]
    ensures file.Some? ==> disks == Parsed(file.value)
  {
    disks := map[];
    if file.None? {
      return;
    }
    var lines := file.value;
    var voltype := "";
    var i := 0;
    while i < |lines|
      invariant i <= |lines|
      invariant voltype == Section(lines[..i])
      invariant disks == Parsed(lines[..i])
    {
      ParseStep(lines, i);
      var line := TrimSpace(lines[i]);
      if HasPrefix(line, "[") && HasSuffix(line, "]") {
        voltype := Trim(line, "[] ");
        if voltype != DiskVolume && voltype != LvmVolume {
          voltype := "";
        }
        i := i + 1;
        continue;
      }
      if voltype == "" {
        i := i + 1;
        continue;
      }
      disks := disks[voltype := (if voltype in disks then disks[voltype] else []) + [line]];
      i := i + 1;
    }
    assert lines[..i] == lines;
  }

  // ---------------------------------------------------------------------------
  // newUUID (section 4.4 of RFC 4122)
  // ---------------------------------------------------------------------------

  /**
   * The two stamps `newUUID` puts on 16 random bytes: the variant (section 4.1.1 of RFC 4122)
   * in the top two bits of byte 8 and the version, 4, in the top four bits of byte 6.
   */
  function Stamp(bs: seq<bv8>): (r: seq<bv8>)
    requires |bs| == 16
    ensures |r| == 16
    ensures r[8] & 0xC0 == 0x80 && r[8] & 0x3F == bs[8] & 0x3F
    ensures r[6] & 0xF0 == 0x40 && r[6] & 0x0F == bs[6] & 0x0F
    ensures forall k :: 0 <= k < 16 && k != 6 && k != 8 ==> r[k] == bs[k]
  {
    bs[8 := (bs[8] & 0x3F) | 0x80][6 := (bs[6] & 0x0F) | 0x40]
  }

  /** `fmt.Sprintf("%x-%x-%x-%x-%x", ...)` over the five groups of a 16-byte UUID. */
  function UuidText(bs: seq<bv8>): (s: string)
    requires |bs| == 16
    ensures |s| == 36
    ensures s[8] == '-' && s[13] == '-' && s[18] == '-' && s[23] == '-'
    ensures forall k :: 0 <= k < 36 && k != 8 && k != 13 && k != 18 && k != 23 ==> IsLowerHex(s[k])
  {
    HexBytes(bs[0..4]) + "-" + HexBytes(bs[4..6]) + "-" + HexBytes(bs[6..8]) + "-" + HexBytes(bs[8..10]) + "-" + HexBytes(bs[10..])
  }

  /** A text with its dashes removed. */
  function Undashed(s: string): (r: string)
    ensures |r| <= |s|
  {
    if s == [] then [] else (if s[0] == '-' then [] else [s[0]]) + Undashed(s[1..])
  }

  lemma {:induction false} UndashedConcat(a: string, b: string)
    ensures Undashed(a + b) == Undashed(a) + Undashed(b)
  {
    if a == [] {
      assert a + b == b;
    } else {
      assert (a + b)[1..] == a[1..] + b;
      UndashedConcat(a[1..], b);
    }
  }

  lemma {:induction false} UndashedHex(s: string)
    requires forall k :: 0 <= k < |s| ==> IsLowerHex(s[k])
    ensures Undashed(s) == s
  {
    if s != [] {
      UndashedHex(s[1..]);
    }
  }

  lemma {:induction false} HexBytesConcat(a: seq<bv8>, b: seq<bv8>)
    ensures HexBytes(a + b) == HexBytes(a) + HexBytes(b)
  {
    if a != [] {
      assert (a + b)[1..] == a[1..] + b;
      HexBytesConcat(a[1..], b);
    } else {
      assert a + b == b;
    }
  }

  /** Five groups of hex digits, joined by dashes. */
  function Dashed(g0: string, g1: string, g2: string, g3: string, g4: string): string
  {
    g0 + "-" + g1 + "-" + g2 + "-" + g3 + "-" + g4
  }

  lemma UndashedDashJoin(a: string, g: string)
    ensures Undashed(a + "-" + g) == Undashed(a) + Undashed(g)
  {
    assert Undashed("-") == [];
    UndashedConcat(a, "-");
    UndashedConcat(a + "-", g);
  }

  lemma UndashedDashed(g0: string, g1: string, g2: string, g3: string, g4: string)
    requires Undashed(g0) == g0 && Undashed(g1) == g1 && Undashed(g2) == g2
    requires Undashed(g3) == g3 && Undashed(g4) == g4
    ensures Undashed(Dashed(g0, g1, g2, g3, g4)) == g0 + g1 + g2 + g3 + g4
  {
    var a1 := g0 + "-" + g1;
    UndashedDashJoin(g0, g1);
    var a2 := a1 + "-" + g2;
    UndashedDashJoin(a1, g2);
    var a3 := a2 + "-" + g3;
    UndashedDashJoin(a2, g3);
    UndashedDashJoin(a3, g4);
  }

  lemma HexBytesGroups(bs: seq<bv8>)
    requires |bs| == 16
    ensures HexBytes(bs[0..4]) + HexBytes(bs[4..6]) + HexBytes(bs[6..8]) + HexBytes(bs[8..10]) + HexBytes(bs[10..])
         == HexBytes(bs)
  {
    HexBytesConcat(bs[0..4], bs[4..6]);
    assert bs[0..4] + bs[4..6] == bs[0..6];
    HexBytesConcat(bs[0..6], bs[6..8]);
    assert bs[0..6] + bs[6..8] == bs[0..8];
    HexBytesConcat(bs[0..8], bs[8..10]);
    assert bs[0..8] + bs[8..10] == bs[0..10];
    HexBytesConcat(bs[0..10], bs[10..]);
    assert bs[0..10] + bs[10..] == bs;
  }

  /** The text of a UUID, without its dashes, reads back as its 16 bytes in order. */
  lemma UuidTextRoundTrip(bs: seq<bv8>)
    requires |bs| == 16
    ensures Undashed(UuidText(bs)) == HexBytes(bs)
    ensures UnhexBytes(Undashed(UuidText(bs))) == Values(bs)
  {
    var h0, h1, h2, h3, h4 := HexBytes(bs[0..4]), HexBytes(bs[4..6]), HexBytes(bs[6..8]), HexBytes(bs[8..10]), HexBytes(bs[10..]);
    UndashedHex(h0);
    UndashedHex(h1);
    UndashedHex(h2);
    UndashedHex(h3);
    UndashedHex(h4);
    assert UuidText(bs) == Dashed(h0, h1, h2, h3, h4);
    UndashedDashed(h0, h1, h2, h3, h4);
    HexBytesGroups(bs);
    UnhexHex(bs);
  }

  /**
   * In the text of a stamped UUID, the version digit (the 15th character) is '4' and the
   * variant digit (the 20th) is one of '8', '9', 'a', 'b'.
   */
  lemma StampedUuidDigits(bs: seq<bv8>)
    requires |bs| == 16
    ensures UuidText(Stamp(bs))[14] == '4'
    ensures UuidText(Stamp(bs))[19] in "89ab"
  {
    var r := Stamp(bs);
    var s := UuidText(r);
    assert s[14] == HexBytes(r[6..8])[0];
    assert s[19] == HexBytes(r[8..10])[0];
    assert r[6..8][0] == r[6] && r[8..10][0] == r[8];
    assert r[6] as int / 16 == 4 by {
      assert r[6] & 0xF0 == 0x40;
      HighNibble(r[6], 4);
    }
    assert 8 <= r[8] as int / 16 <= 11 by {
      assert r[8] & 0xC0 == 0x80;
      HighBits(r[8]);
    }
  }

  lemma HighNibble(b: bv8, n: nat)
    requires n < 16 && b & 0xF0 == (n * 16) as bv8
    ensures b as int / 16 == n
  {
    assert b == (b & 0xF0) | (b & 0x0F);
    assert (b & 0x0F) as int < 16;
    assert b as int == (b & 0xF0) as int + (b & 0x0F) as int;
  }

  lemma HighBits(b: bv8)
    requires b & 0xC0 == 0x80
    ensures 8 <= b as int / 16 <= 11
  {
    assert b == (b & 0xC0) | (b & 0x3F);
    assert (b & 0x3F) as int < 64;
    assert b as int == (b & 0xC0) as int + (b & 0x3F) as int;
  }

  /**
   * `newUUID`: `random` is what the random source yields. Fewer than 16 bytes is a read error
   * (`io.EOF` when there is none, `io.ErrUnexpectedEOF` otherwise); 16 bytes are stamped in
   * place and formatted.
   */
  method NewUuid(random: seq<bv8>) returns (r: Result<string, string>)
    ensures |random| == 0 ==> r == Err("EOF")
    ensures 0 < |random| < 16 ==> r == Err("unexpected EOF")
    ensures |random| >= 16 ==> r == Ok(UuidText(Stamp(random[..16])))
  {
    var uuid := new bv8[16];
    var n := 0;
    while n < 16 && n < |random|
      invariant n <= 16 && n <= |random|
      invariant uuid[..n] == random[..n]
    {
      uuid[n] := random[n];
      n := n + 1;
    }
    if n != 16 {
      return Err(if n == 0 then "EOF" else "unexpected EOF");
    }
    uuid[8] := (uuid[8] & 0x3F) | 0x80;
    uuid[6] := (uuid[6] & 0x0F) | 0x40;
    assert uuid[..] == Stamp(random[..16]);
    return Ok(UuidText(uuid[..]));
  }

  // ---------------------------------------------------------------------------
  // registerBlockDisk: the UUID in `blkid` output
  // ---------------------------------------------------------------------------

  /** What the UUID extraction in `registerBlockDisk` makes of `blkid` output. */
  datatype UuidScan = UuidFound(uuid: string) | UuidMissing | SlicePanic

  /**
   * Finds "UUID=", skips six characters (the key and its opening quote), drops the output's
   * last character and keeps the text up to the next '"'. A slice whose bounds are out of
   * range is a run-time panic in Go.
   */
  function BlkidUuid(output: string): (r: UuidScan)
    ensures r == UuidMissing <==> !Contains(output, "UUID=")
    ensures r.UuidFound? ==>
              '"' !in r.uuid && OccursAt(output, r.uuid + "\"", Index(output, "UUID=") + 6)
  {
    var pos := Index(output, "UUID=");
    if pos == -1 then UuidMissing
    else if pos + 6 > |output| - 1 then SlicePanic
    else
      var rest := output[pos + 6..|output| - 1];
      var q := IndexOfChar(rest, '"');
      if q == -1 then SlicePanic
      else
        assert rest[..q + 1] == rest[..q] + "\"";
        assert forall k :: 0 <= k <= q ==> output[pos + 6..pos + 6 + q + 1][k] == rest[k];
        assert output[pos + 6..pos + 6 + q + 1] == rest[..q + 1];
        UuidFound(rest[..q])
  }

  /**
   * `blkid` output of the usual shape, `<device>: UUID="<uuid>" ...` followed by a final
   * character, yields the quoted UUID.
   */
  lemma BlkidReadsUuid(device: string, uuid: string, tail: string)
    requires 'U' !in device && '"' !in uuid && |tail| >= 1
    ensures BlkidUuid(device + ": UUID=\"" + uuid + "\"" + tail) == UuidFound(uuid)
  {
    var output := device + ": UUID=\"" + uuid + "\"" + tail;
    var p := |device| + 2;
    assert output[p..p + 5] == "UUID=";
    forall i | 0 <= i < p
      ensures !OccursAt(output, "UUID=", i)
    {
      if i < |device| {
        assert output[i] == device[i];
      } else {
        assert output[i] == ": "[i - |device|];
      }
      assert output[i] != 'U';
      assert output[i..i + 5][0] == output[i];
    }
    assert OccursAt(output, "UUID=", p);
    var pos := Index(output, "UUID=");
    assert pos == p;
    var rest := output[pos + 6..|output| - 1];
    assert rest == uuid + "\"" + tail[..|tail| - 1];
    assert rest[|uuid|] == '"';
    assert rest[..|uuid|] == uuid;
  }

  // ---------------------------------------------------------------------------
  // registerBlockDisk: the size in `df -B MB` output
  // ---------------------------------------------------------------------------

  /** The directory a block device with the given UUID is mounted on. */
  function DiskMountPoint(uuid: string): string {
    "/var/vol-pool/disks/" + uuid
  }

  /** A `df` line of six fields whose sixth is the mount point. */
  predicate MountedOn(line: string, mountPoint: string) {
    var words := Fields(line);
    |words| == 6 && words[5] == mountPoint
  }

  /** The size field (the second) of the first line mounted on `mountPoint`, if any. */
  function SizeField(lines: seq<string>, mountPoint: string): Option<string> {
    if lines == [] then None
    else if MountedOn(lines[0], mountPoint) then Some(Fields(lines[0])[1])
    else SizeField(lines[1..], mountPoint)
  }

  /** The size `registerBlockDisk` reads: the field with trailing 'M'/'B' cut, as an integer. */
  function DfSize(output: string, mountPoint: string): int {
    AtoiValue(TrimRight(SizeField(Split(output, '\n'), mountPoint).GetOr(""), "MB"))
  }

  /** The size field comes from the FIRST line mounted on the mount point. */
  lemma {:induction false} SizeFieldFirst(lines: seq<string>, mountPoint: string, k: nat)
    requires k < |lines| && MountedOn(lines[k], mountPoint)
    requires forall j :: 0 <= j < k ==> !MountedOn(lines[j], mountPoint)
    ensures SizeField(lines, mountPoint) == Some(Fields(lines[k])[1])
  {
    if k > 0 {
      assert lines[1..][k - 1] == lines[k];
      forall j | 0 <= j < k - 1
        ensures !MountedOn(lines[1..][j], mountPoint)
      {
        assert lines[1..][j] == lines[j + 1];
      }
      assert !MountedOn(lines[0], mountPoint);
      SizeFieldFirst(lines[1..], mountPoint, k - 1);
    }
  }

  /** No size is found when no line is mounted on the mount point. */
  lemma {:induction false} SizeFieldNone(lines: seq<string>, mountPoint: string)
    ensures SizeField(lines, mountPoint).None? <==> forall k :: 0 <= k < |lines| ==> !MountedOn(lines[k], mountPoint)
  {
    if lines != [] {
      SizeFieldNone(lines[1..], mountPoint);
      if SizeField(lines, mountPoint).None? {
        forall k | 0 <= k < |lines|
          ensures !MountedOn(lines[k], mountPoint)
        {
          if k > 0 {
            assert lines[k] == lines[1..][k - 1];
          }
        }
      }
    }
  }

  lemma TrimRightSuffix(a: string, b: string, cutset: string)
    requires a != [] && a[|a| - 1] !in cutset
    requires forall k :: 0 <= k < |b| ==> b[k] in cutset
    ensures TrimRight(a + b, cutset) == a
  {
    var s := a + b;
    var r := TrimRight(s, cutset);
    assert s[|a| - 1] == a[|a| - 1];
    assert forall k :: |a| <= k < |s| ==> s[k] == b[k - |a|];
    assert r == s[..|a|];
  }

  /** A size written as a number followed by "MB" reads back as that number. */
  lemma DfSizeReadsMegabytes(output: string, mountPoint: string, n: nat)
    requires n <= MaxInt64
    requires SizeField(Split(output, '\n'), mountPoint) == Some(Itoa(n) + "MB")
    ensures DfSize(output, mountPoint) == n
  {
    var t := Itoa(n);
    var field := SizeField(Split(output, '\n'), mountPoint).GetOr("");
    assert field == t + "MB";
    assert t[|t| - 1] !in "MB" by {
      assert IsDigit(t[|t| - 1]);
    }
    TrimRightSuffix(t, "MB", "MB");
    AtoiItoa(n);
  }

  lemma SizeFieldStep(lines: seq<string>, i: nat, mountPoint: string)
    requires i < |lines|
    ensures SizeField(lines[i..], mountPoint) ==
              if MountedOn(lines[i], mountPoint) then Some(Fields(lines[i])[1])
              else SizeField(lines[i + 1..], mountPoint)
  {
    assert lines[i..][0] == lines[i];
    assert lines[i..][1..] == lines[i + 1..];
  }

  /** The `df` loop of `registerBlockDisk`: skip lines not of six fields, stop at the mount point. */
  method ReadDfSize(output: string, mountPoint: string) returns (mb: int)
    ensures mb == DfSize(output, mountPoint)
  {
    var lines := Split(output, '\n');
    var size := "";
    var i := 0;
    while i < |lines|
      invariant i <= |lines|
      invariant SizeField(lines, mountPoint) == SizeField(lines[i..], mountPoint)
    {
      SizeFieldStep(lines, i, mountPoint);
      var words := Fields(lines[i]);
      if |words| != 6 {
        i := i + 1;
        continue;
      }
      if words[5] == mountPoint {
        size := words[1];
        break;
      }
      i := i + 1;
    }
    assert i == |lines| ==> lines[i..] == [];
    mb := AtoiValue(TrimRight(size, "MB"));
  }

  // ---------------------------------------------------------------------------
  // registerLvm: the size in `vgs` output
  // ---------------------------------------------------------------------------

  /** The trimmed `vgs` output cut at its first '.', as an integer (0 when it is not one). */
  function VgsSize(output: string): int {
    var size := TrimSpace(output);
    var pos := Index(size, ".");
    AtoiValue(if pos != -1 then size[..pos] else size)
  }

  /** A size printed as `<n>.<fraction>` reads as n. */
  lemma VgsSizeReadsMegabytes(output: string, n: nat, fraction: string)
    requires n <= MaxInt64
    requires TrimSpace(output) == Itoa(n) + "." + fraction
    ensures VgsSize(output) == n
  {
    var size := TrimSpace(output);
    var t := Itoa(n);
    assert OccursAt(size, ".", |t|);
    forall i | 0 <= i < |t|
      ensures !OccursAt(size, ".", i)
    {
      assert size[i] == t[i] && IsDigit(t[i]);
      assert size[i..i + 1][0] == size[i];
    }
    assert Index(size, ".") == |t|;
    assert size[..|t|] == t;
    AtoiItoa(n);
  }

  // ---------------------------------------------------------------------------
  // registerBlockDisk and registerLvm
  // ---------------------------------------------------------------------------

  /** The fields of a local volume that registration fills in. */
  class LocalVolume {
    var name: string
    var volumeType: string
    var path: string
    var volumeSize: int
    var availSize: int

    /** `extensions.LocalVolume{}`: everything empty. */
    constructor ()
      ensures name == "" && volumeType == "" && path == "" && volumeSize == 0 && availSize == 0
    {
      name, volumeType, path, volumeSize, availSize := "", "", "", 0, 0;
    }

    /**
     * `registerBlockDisk`. The device (`blk` without trailing '/') is skipped when it is among
     * the sources in `mountSources`, when formatting fails (`mkfsOk`), when `blkid` fails
     * (`blkidOutput` is None) or reports no UUID, and when mounting fails (`mountOk`); nothing
     * is then filled in. A UUID the slicing cannot cut out panics. Otherwise the volume is
     * named after the UUID, is of type "disk", lives on the mount point and has the size `df`
     * reports for it.
     */
    method RegisterBlockDisk(blk: string, mountSources: seq<string>, mkfsOk: bool,
                             blkidOutput: Option<string>, mountOk: bool, dfOutput: string)
      returns (panicked: bool)
      modifies this
      ensures var reached := TrimRight(blk, "/") !in mountSources && mkfsOk && blkidOutput.Some?;
              panicked <==> reached && BlkidUuid(blkidOutput.value) == SlicePanic
      ensures var reached := TrimRight(blk, "/") !in mountSources && mkfsOk && blkidOutput.Some?;
              if reached && BlkidUuid(blkidOutput.value).UuidFound? && mountOk then
                var uuid := BlkidUuid(blkidOutput.value).uuid;
                name == "lv-" + uuid && volumeType == "disk" && path == DiskMountPoint(uuid)
                && volumeSize == DfSize(dfOutput, DiskMountPoint(uuid)) && availSize == volumeSize
              else
                unchanged(this)
    {
      panicked := false;
      var device := TrimRight(blk, "/");
      if device in mountSources || !mkfsOk || blkidOutput.None? {
        return;
      }
      var scan := BlkidUuid(blkidOutput.value);
      if scan.UuidMissing? {
        return;
      }
      if scan.SlicePanic? {
        return true;
      }
      var mountPoint := DiskMountPoint(scan.uuid);
      if !mountOk {
        return;
      }
      var mb := ReadDfSize(dfOutput, mountPoint);
      name := "lv-" + scan.uuid;
      volumeType := "disk";
      path := mountPoint;
      volumeSize := mb;
      availSize := mb;
    }

    /**
     * `registerLvm`. The volume group (`lvm` without trailing '/') is skipped when `vgs` fails
     * (`vgsOutput` is None). Otherwise it is named after a fresh UUID from `random` (the name
     * is "lv-" alone when too few random bytes are available), is of type "lvm" and has the
     * size `vgs` reports.
     */
    method RegisterLvm(lvm: string, vgsOutput: Option<string>, random: seq<bv8>)
      modifies this
      ensures vgsOutput.None? ==> unchanged(this)
      ensures vgsOutput.Some? ==>
                name == "lv-" + (if |random| >= 16 then UuidText(Stamp(random[..16])) else "")
                && volumeType == "lvm" && path == TrimRight(lvm, "/")
                && volumeSize == VgsSize(vgsOutput.value) && availSize == volumeSize
    {
      var group := TrimRight(lvm, "/");
      if vgsOutput.None? {
        return;
      }
      var mb := VgsSize(vgsOutput.value);
      var generated := NewUuid(random);
      var uuid := if generated.Ok? then generated.value else "";
      name := "lv-" + uuid;
      volumeType := "lvm";
      path := group;
      volumeSize := mb;
      availSize := mb;
    }
  }

  /** A registered block device is named after, and mounted under, the UUID `blkid` printed. */
  lemma RegisteredDiskCarriesUuid(device: string, uuid: string, tail: string)
    requires 'U' !in device && '"' !in uuid && |tail| >= 1
    ensures var scan := BlkidUuid(device + ": UUID=\"" + uuid + "\"" + tail);
            scan.UuidFound? && "lv-" + scan.uuid == "lv-" + uuid
            && DiskMountPoint(scan.uuid) == "/var/vol-pool/disks/" + uuid
  {
    BlkidReadsUuid(device, uuid, tail);
  }

  /** A volume group registered with enough random bytes has a name "lv-" and a version-4 UUID. */
  lemma RegisteredLvmName(random: seq<bv8>)
    requires |random| >= 16
    ensures var name := "lv-" + UuidText(Stamp(random[..16]));
            |name| == 39 && name[..3] == "lv-" && name[17] == '4' && name[22] in "89ab"
  {
    StampedUuidDigits(random[..16]);
  }

  // ---------------------------------------------------------------------------
  // Volume specs: getVolumeSource, CanSupport, GetVolumeName, NewMounter
  // ---------------------------------------------------------------------------

  datatype LocalDiskSource = LocalDiskSource(path: string)

  datatype AccessMode = ReadWriteOnce | ReadOnlyMany | ReadWriteMany

  /** An inline pod volume. */
  datatype Volume = Volume(name: string, localDisk: Option<LocalDiskSource>)

  /** A persistent volume, with the parts of its spec the plugin sets or reads. */
  datatype PersistentVolume = PersistentVolume(
    name: string,
    annotations: map<string, string>,
    reclaimPolicy: string,
    accessModes: seq<AccessMode>,
    capacity: string,
    localDisk: Option<LocalDiskSource>)

  /** `volume.Spec`: an inline volume or a persistent volume, and whether it is read-only. */
  datatype Spec = Spec(volume: Option<Volume>, persistentVolume: Option<PersistentVolume>, readOnly: bool)

  /** The name of a spec: the inline volume's, else the persistent volume's. */
  function SpecName(spec: Spec): string {
    if spec.volume.Some? then spec.volume.value.name
    else if spec.persistentVolume.Some? then spec.persistentVolume.value.name
    else ""
  }

  const NoLocalDiskError := "Spec does not reference an LocalDisk volume type"

  /**
   * `getVolumeSource`: the inline volume's local-disk source takes precedence over the
   * persistent volume's; with neither, an error. The read-only flag is the spec's.
   */
  function GetVolumeSource(spec: Spec): (r: Result<(LocalDiskSource, bool), string>)
    ensures spec.volume.Some? && spec.volume.value.localDisk.Some? ==>
              r == Ok((spec.volume.value.localDisk.value, spec.readOnly))
    ensures !(spec.volume.Some? && spec.volume.value.localDisk.Some?)
            && spec.persistentVolume.Some? && spec.persistentVolume.value.localDisk.Some? ==>
              r == Ok((spec.persistentVolume.value.localDisk.value, spec.readOnly))
    ensures r.Err? ==> r.error == NoLocalDiskError
  {
    if spec.volume.Some? && spec.volume.value.localDisk.Some? then
      Ok((spec.volume.value.localDisk.value, spec.readOnly))
    else if spec.persistentVolume.Some? && spec.persistentVolume.value.localDisk.Some? then
      Ok((spec.persistentVolume.value.localDisk.value, spec.readOnly))
    else
      Err(NoLocalDiskError)
  }

  /** `CanSupport`: the spec has a local-disk source, on the persistent volume or inline. */
  predicate CanSupport(spec: Spec) {
    (spec.persistentVolume.Some? && spec.persistentVolume.value.localDisk.Some?)
    || (spec.volume.Some? && spec.volume.value.localDisk.Some?)
  }

  /** The plugin supports exactly the specs a volume source can be read from. */
  lemma CanSupportIffSource(spec: Spec)
    ensures CanSupport(spec) <==> GetVolumeSource(spec).Ok?
  {
  }

  /** `GetVolumeName`: the source's path. */
  function GetVolumeName(spec: Spec): (r: Result<string, string>)
    ensures r.Ok? <==> CanSupport(spec)
    ensures r.Ok? ==> r.value == GetVolumeSource(spec).value.0.path
    ensures r.Err? ==> r.error == NoLocalDiskError
  {
    var source := GetVolumeSource(spec);
    if source.Err? then Err(source.error) else Ok(source.value.0.path)
  }

  /** What `NewMounter` builds: the source's path and the spec's read-only flag. */
  datatype Mounter = Mounter(path: string, readOnly: bool)

  function NewMounter(spec: Spec): (r: Result<Mounter, string>)
    ensures r.Ok? <==> CanSupport(spec)
    ensures r.Ok? ==> r.value.readOnly == spec.readOnly && Ok(r.value.path) == GetVolumeName(spec)
  {
    var source := GetVolumeSource(spec);
    if source.Err? then Err(source.error) else Ok(Mounter(source.value.0.path, source.value.1))
  }

  // ---------------------------------------------------------------------------
  // Provisioning, recycling and deleting
  // ---------------------------------------------------------------------------

  /** `volume.VolumeOptions`, the parts the provisioner uses. */
  datatype VolumeOptions = VolumeOptions(
    pvName: string, reclaimPolicy: string, accessModes: seq<AccessMode>, capacity: string)

  /** `GetAccessModes`: the plugin offers read-write-once only. */
  const PluginAccessModes := [ReadWriteOnce]

  /** `NewProvisioner`: options without access modes get the plugin's; others are kept. */
  function NewProvisioner(options: VolumeOptions): (r: VolumeOptions)
    ensures options.accessModes == [] ==> r == options.(accessModes := PluginAccessModes)
    ensures options.accessModes != [] ==> r == options
  {
    if |options.accessModes| == 0 then options.(accessModes := PluginAccessModes) else options
  }

  /** The provisioner's access modes are never empty, and defaulting twice changes nothing. */
  lemma NewProvisionerDefaults(options: VolumeOptions)
    ensures NewProvisioner(options).accessModes != []
    ensures NewProvisioner(NewProvisioner(options)) == NewProvisioner(options)
  {
  }

  const ProvisionRoot := "/tmp/localdisk_pv/"
  const CreatedByAnnotation := "kubernetes.io/createdby"
  const CreatedByProvisioner := "localdisk-dynamic-provisioner"

  /**
   * `Provision`: a persistent volume named after the options, with their reclaim policy,
   * access modes and capacity, whose local-disk path is a fresh directory under
   * /tmp/localdisk_pv/ named by `uuid`. `mkdirErr` is the outcome of creating it, returned
   * beside the volume.
   */
  function Provision(options: VolumeOptions, uuid: string, mkdirErr: Option<string>): (r: (PersistentVolume, Option<string>))
    ensures r.0.name == options.pvName && r.0.reclaimPolicy == options.reclaimPolicy
    ensures r.0.accessModes == options.accessModes && r.0.capacity == options.capacity
    ensures r.0.annotations == map[CreatedByAnnotation := CreatedByProvisioner]
    ensures r.0.localDisk == Some(LocalDiskSource(ProvisionRoot + uuid))
    ensures r.1 == mkdirErr
  {
    var pv := PersistentVolume(options.pvName, map[CreatedByAnnotation := CreatedByProvisioner],
                               options.reclaimPolicy, options.accessModes, options.capacity,
                               Some(LocalDiskSource(ProvisionRoot + uuid)));
    (pv, mkdirErr)
  }

  /**
   * The `/tmp/.+` test of `Delete`: an unanchored match, so "/tmp/" anywhere in the path
   * followed by at least one character other than a newline.
   */
  predicate UnderTmp(path: string) {
    exists i :: 0 <= i < |path| - 5 && OccursAt(path, "/tmp/", i) && path[i + 5] != '\n'
  }

  /** A path that passes the guard contains "/tmp/". */
  lemma UnderTmpContainsTmp(path: string)
    requires UnderTmp(path)
    ensures Contains(path, "/tmp/")
  {
    ContainsIff(path, "/tmp/");
  }

  /** The guard rejects "/tmp/" alone, and "/tmp/" followed only by a newline. */
  lemma UnderTmpRejects()
    ensures !UnderTmp("/tmp/")
    ensures !UnderTmp("/tmp/\n")
  {
  }

  /**
   * `Delete`: paths outside the guard are refused with an error naming them; otherwise the
   * error, if any, of removing the directory tree (`removeErr`).
   */
  function Delete(path: string, removeErr: Option<string>): (err: Option<string>)
    ensures !UnderTmp(path) ==>
              err == Some("local_disk deleter only supports /tmp/.+ but received provided " + path)
    ensures UnderTmp(path) ==> err == removeErr
  {
    if !UnderTmp(path) then Some("local_disk deleter only supports /tmp/.+ but received provided " + path)
    else removeErr
  }

  /** Every path `Provision` hands out passes the `Delete` guard, whatever the UUID. */
  lemma ProvisionedPathDeletable(options: VolumeOptions, uuid: string, mkdirErr: Option<string>, removeErr: Option<string>)
    ensures var path := Provision(options, uuid, mkdirErr).0.localDisk.value.path;
            UnderTmp(path) && Delete(path, removeErr) == removeErr
  {
    var path := ProvisionRoot + uuid;
    assert path[0..5] == "/tmp/";
    assert OccursAt(path, "/tmp/", 0) && path[5] == 'l';
  }

  /** What `newRecycler` and `newDeleter` build: the spec's name and the volume's path. */
  datatype Reclaimer = Reclaimer(name: string, path: string)

  const NoPersistentLocalDiskError := "spec.PersistentVolumeSource.LocalDisk is nil"

  /** `newRecycler`: only a persistent volume with a local-disk source can be recycled. */
  function NewRecycler(spec: Spec): (r: Result<Reclaimer, string>)
    ensures r.Ok? <==> spec.persistentVolume.Some? && spec.persistentVolume.value.localDisk.Some?
    ensures r.Ok? ==> r.value == Reclaimer(SpecName(spec), spec.persistentVolume.value.localDisk.value.path)
    ensures r.Err? ==> r.error == NoPersistentLocalDiskError
  {
    if spec.persistentVolume.None? || spec.persistentVolume.value.localDisk.None? then
      Err(NoPersistentLocalDiskError)
    else
      Ok(Reclaimer(SpecName(spec), spec.persistentVolume.value.localDisk.value.path))
  }

  /** What `newDeleter` does as written: a missing persistent volume is dereferenced. */
  datatype DeleterOutcome = Built(deleter: Reclaimer) | Refused(error: string) | NilDereference

  /**
   * `newDeleter` as written: it refuses a persistent volume without a local-disk source, but
   * a spec with no persistent volume at all passes the test and is then dereferenced.
   */
  function NewDeleterAsWritten(spec: Spec): (r: DeleterOutcome)
    ensures r == NilDereference <==> spec.persistentVolume.None?
    ensures r.Built? ==> NewDeleter(spec) == Ok(r.deleter)
  {
    if spec.persistentVolume.Some? && spec.persistentVolume.value.localDisk.None? then
      Refused(NoPersistentLocalDiskError)
    else if spec.persistentVolume.None? then
      NilDereference
    else
      Built(Reclaimer(SpecName(spec), spec.persistentVolume.value.localDisk.value.path))
  }

  /** An inline local-disk volume, which the plugin supports, crashes `newDeleter` as written. */
  lemma InlineSpecCrashesDeleter(path: string)
    ensures var spec := Spec(Some(Volume("v", Some(LocalDiskSource(path)))), None, false);
            CanSupport(spec) && NewDeleterAsWritten(spec) == NilDereference
  {
  }

  /**
   * `newDeleter` with the test `newRecycler` uses, so it builds what `newRecycler` builds: any
   * spec without a persistent volume carrying a local-disk source is refused with an error.
   */
  function NewDeleter(spec: Spec): (r: Result<Reclaimer, string>)
    ensures r.Ok? <==> spec.persistentVolume.Some? && spec.persistentVolume.value.localDisk.Some?
    ensures r.Ok? ==> r.value == Reclaimer(SpecName(spec), spec.persistentVolume.value.localDisk.value.path)
    ensures r.Err? ==> r.error == NoPersistentLocalDiskError
  {
    NewRecycler(spec)
  }

  /** A provisioned volume gets a deleter, and that deleter's path passes the guard. */
  lemma ProvisionedVolumeDeletes(options: VolumeOptions, uuid: string, mkdirErr: Option<string>, removeErr: Option<string>)
    ensures var spec := Spec(None, Some(Provision(options, uuid, mkdirErr).0), false);
            NewDeleter(spec).Ok? && Delete(NewDeleter(spec).value.path, removeErr) == removeErr
  {
    ProvisionedPathDeletable(options, uuid, mkdirErr, removeErr);
  }
}
