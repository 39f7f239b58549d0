/** The guest's compliance check: configuration hash, configuration text, and verdict. */
module Compliance {
  import opened Decimals
  import opened Sequences
  import opened Fnv
  import opened Text
  import opened Hex

  const KNOWN_FIRMWARE_HASHES: seq<string> := [
    "a1b2c3d4e5f6a7b8c9d0e1f2a3b4c5d6e7f8a9b0c1d2e3f4a5b6c7d8e9f0a1b2",
    "f1e2d3c4b5a69788796a5b4c3d2e1f0a1b2c3d4e5f6a7b8c9d0e1f2a3b4c5d6",
    "0123456789abcdef0123456789abcdef0123456789abcdef0123456789abcdef"
  ]

  const COMPLIANT_FIRMWARE_VERSIONS: seq<string> := ["1.0.0", "1.1.0", "1.2.0", "2.0.0"]

  // ---------- the configuration hash

  function ConfigHash(config: string): string {
    HexOf(WordBytes(Hash(Utf8(config))))
  }

  method ComputeConfigHash(config: string) returns (hex: string)
    ensures hex == ConfigHash(config)
  {
    var h := ComputeHash(Utf8(config));
    var bytes := WordBytes(h);
    hex := "";
    for i := 0 to |bytes|
      invariant hex == HexOf(bytes[..i])
    {
      assert bytes[..i + 1][..i] == bytes[..i];
      var b := bytes[i];
      var high, low := b / 16, b % 16;
      hex := hex + [if high < 10 then (48 + high) as char else (97 + high - 10) as char];
      hex := hex + [if low < 10 then (48 + low) as char else (97 + low - 10) as char];
    }
    assert bytes[..|bytes|] == bytes;
  }

  /** The configuration hash is 16 lower-case digits that read back as the 64-bit FNV-1a hash. */
  lemma ConfigHashReadsBack(config: string)
    ensures |ConfigHash(config)| == 16
    ensures forall i :: 0 <= i < 16 ==> IsLowerHex(ConfigHash(config)[i]) && IsHexDigit(ConfigHash(config)[i])
    ensures HexValue(ConfigHash(config)) == Hash(Utf8(config))
  {
    HexOfIsLower(WordBytes(Hash(Utf8(config))));
    HexValueOfHex(WordBytes(Hash(Utf8(config))));
    WordBytesValue(Hash(Utf8(config)));
  }

  /** Equal configuration hashes are equal 64-bit hashes, and conversely. */
  lemma ConfigHashFaithful(c: string, d: string)
    ensures ConfigHash(c) == ConfigHash(d) <==> Hash(Utf8(c)) == Hash(Utf8(d))
  {
    ConfigHashReadsBack(c);
    ConfigHashReadsBack(d);
  }

  // ---------- the configuration text

  /** The value of one comma-separated piece, when it carries the prefix. */
  function PieceValue(piece: string, pre: string): Option<string> {
    match StripPrefix(Trim(piece), pre)
    case Some(value) => Some(Trim(value))
    case None => None
  }

  function FirstValue(pieces: seq<string>, pre: string): Option<string> {
    if pieces == [] then None
    else if PieceValue(pieces[0], pre).Some? then PieceValue(pieces[0], pre)
    else FirstValue(pieces[1..], pre)
  }

  function FieldOf(config: string, name: string): Option<string> {
    FirstValue(Split(config, ','), name + "=")
  }

  /** A piece carries a field exactly when, trimmed, it starts with the name and an equals sign; the value is
      what follows, trimmed. */
  lemma FieldIs(config: string, name: string, i: nat)
    requires i < |Split(config, ',')| && name + "=" <= Trim(Split(config, ',')[i])
    requires forall j :: 0 <= j < i ==> !(name + "=" <= Trim(Split(config, ',')[j]))
    ensures FieldOf(config, name) == Some(Trim(Trim(Split(config, ',')[i])[|name| + 1..]))
  {
    FirstValueIs(Split(config, ','), name + "=", i);
  }

  lemma {:induction false} FirstValueIs(pieces: seq<string>, pre: string, i: nat)
    requires i < |pieces| && pre <= Trim(pieces[i]) && forall j :: 0 <= j < i ==> !(pre <= Trim(pieces[j]))
    ensures FirstValue(pieces, pre) == Some(Trim(Trim(pieces[i])[|pre|..]))
  {
    if i > 0 {
      assert forall j :: 0 <= j < |pieces[1..]| ==> pieces[1..][j] == pieces[j + 1];
      FirstValueIs(pieces[1..], pre, i - 1);
    }
  }

  lemma {:induction false} NoFieldIs(config: string, name: string)
    requires forall j :: 0 <= j < |Split(config, ',')| ==> !(name + "=" <= Trim(Split(config, ',')[j]))
    ensures FieldOf(config, name) == None
  {
    NoFirstValue(Split(config, ','), name + "=");
  }

  lemma {:induction false} NoFirstValue(pieces: seq<string>, pre: string)
    requires forall j :: 0 <= j < |pieces| ==> !(pre <= Trim(pieces[j]))
    ensures FirstValue(pieces, pre) == None
  {
    if pieces != [] {
      assert forall j :: 0 <= j < |pieces[1..]| ==> pieces[1..][j] == pieces[j + 1];
      NoFirstValue(pieces[1..], pre);
    }
  }

  method ExtractManufacturer(config: string) returns (r: Result<string, string>)
    ensures r == match FieldOf(config, "manufacturer")
                 case Some(value) => Ok(value)
                 case None => Err("device_config missing manufacturer field")
  {
    var pieces := Split(config, ',');
    assert pieces[0..] == pieces;
    for i := 0 to |pieces|
      invariant FirstValue(pieces, "manufacturer=") == FirstValue(pieces[i..], "manufacturer=")
    {
      var trimmed := Trim(pieces[i]);
      match StripPrefix(trimmed, "manufacturer=") {
        case Some(value) =>
          assert "manufacturer" + "=" == "manufacturer=";
          return Ok(Trim(value));
        case None =>
      }
      assert pieces[i..][1..] == pieces[i + 1..];
    }
    assert "manufacturer" + "=" == "manufacturer=";
    return Err("device_config missing manufacturer field");
  }

  method ExtractFirmwareVersion(config: string) returns (r: Result<string, string>)
    ensures r == match FieldOf(config, "firmware_version")
                 case Some(value) => Ok(value)
                 case None => Ok("unknown")
  {
    var pieces := Split(config, ',');
    assert pieces[0..] == pieces;
    for i := 0 to |pieces|
      invariant FirstValue(pieces, "firmware_version=") == FirstValue(pieces[i..], "firmware_version=")
    {
      var trimmed := Trim(pieces[i]);
      match StripPrefix(trimmed, "firmware_version=") {
        case Some(value) =>
          assert "firmware_version" + "=" == "firmware_version=";
          return Ok(Trim(value));
        case None =>
      }
      assert pieces[i..][1..] == pieces[i + 1..];
    }
    assert "firmware_version" + "=" == "firmware_version=";
    return Ok("unknown");
  }

  // ---------- printing and reading back

  /** One printed field with its padding. */
  datatype Field = Field(before: string, key: string, value: string, after: string)

  predicate IsName(s: string) {
    forall i :: 0 <= i < |s| ==> s[i] != ',' && s[i] != '=' && !IsWhitespace(s[i])
  }

  predicate WellFormed(f: Field) {
    Blank(f.before) && Blank(f.after) && IsName(f.key) && ',' !in f.value
  }

  function Printed(f: Field): string {
    f.before + (f.key + "=" + f.value) + f.after
  }

  function ConfigText(fields: seq<Field>): string {
    Join(Map(Printed, fields), ',')
  }

  /** The trimmed value of the first field with the given name. */
  function FirstField(fields: seq<Field>, name: string): Option<string> {
    if fields == [] then None
    else if fields[0].key == name then Some(Trim(fields[0].value))
    else FirstField(fields[1..], name)
  }

  lemma {:induction false} TrimEndKeeps(p: string, s: string)
    requires p != [] && !IsWhitespace(p[|p| - 1])
    ensures TrimEnd(p + s) == p + TrimEnd(s)
  {
    if s == [] {
      assert p + s == p;
    } else if IsWhitespace(s[|s| - 1]) {
      assert (p + s)[..|p + s| - 1] == p + s[..|s| - 1];
      TrimEndKeeps(p, s[..|s| - 1]);
    }
  }

  lemma NamePrefix(name: string, key: string, value: string)
    requires IsName(name) && IsName(key)
    ensures name + "=" <= key + "=" + value <==> name == key
  {
    var pre, s := name + "=", key + "=" + value;
    if pre <= s {
      assert pre == s[..|pre|];
      assert s[|name|] == pre[|name|] == '=';
      assert s[|key|] == '=';
      assert forall i :: 0 <= i < |key| ==> s[i] == key[i];
      assert forall i :: 0 <= i < |name| ==> pre[i] == name[i];
      assert |name| == |key|;
      assert name == pre[..|name|] && key == s[..|key|];
    }
  }

  /** Reading one printed field. */
  lemma PrintedPieceValue(f: Field, name: string)
    requires WellFormed(f) && IsName(name)
    ensures PieceValue(Printed(f), name + "=") == if f.key == name then Some(Trim(f.value)) else None
  {
    var pre := f.key + "=";
    var body := pre + f.value;
    assert Printed(f) == f.before + (body + f.after);
    TrimStartPad(f.before, body + f.after);
    assert !IsWhitespace((body + f.after)[0]);
    TrimEndPad(body, f.after);
    TrimEndKeeps(pre, f.value);
    var trimmed := pre + TrimEnd(f.value);
    assert Trim(Printed(f)) == trimmed;
    NamePrefix(name, f.key, TrimEnd(f.value));
    if f.key == name {
      assert trimmed[|pre|..] == TrimEnd(f.value);
      TrimAbsorbsEnd(f.value);
    }
  }

  lemma {:induction false} FirstValueOfPrinted(fields: seq<Field>, name: string)
    requires (forall i :: 0 <= i < |fields| ==> WellFormed(fields[i])) && IsName(name)
    ensures FirstValue(Map(Printed, fields), name + "=") == FirstField(fields, name)
  {
    if fields != [] {
      PrintedPieceValue(fields[0], name);
      assert Map(Printed, fields)[1..] == Map(Printed, fields[1..]);
      FirstValueOfPrinted(fields[1..], name);
    }
  }

  lemma PrintedHasNoComma(f: Field)
    requires WellFormed(f)
    ensures ',' !in Printed(f)
  {
  }

  /** Round trip: whatever the order, duplicates and padding of the printed fields, reading a name
      from the printed text gives the trimmed value of the first field with that name. */
  lemma ConfigRoundTrip(fields: seq<Field>, name: string)
    requires (forall i :: 0 <= i < |fields| ==> WellFormed(fields[i])) && IsName(name)
    ensures FieldOf(ConfigText(fields), name) == FirstField(fields, name)
  {
    var pieces := Map(Printed, fields);
    if fields == [] {
      assert Split("", ',') == [""];
      assert FirstValue([""][1..], name + "=") == None;
    } else {
      forall i | 0 <= i < |pieces| ensures ',' !in pieces[i] { PrintedHasNoComma(fields[i]); }
      SplitOfJoin(pieces, ',');
      FirstValueOfPrinted(fields, name);
    }
  }

  // ---------- the verdict

  datatype ComplianceOutput = ComplianceOutput(
    verified: bool, manufacturerAllowed: bool, complianceVersion: string, deviceConfigHash: string, timestamp: nat)

  predicate FirmwareHashIsKnown(hash: string) {
    exists i :: 0 <= i < |KNOWN_FIRMWARE_HASHES| && EqIgnoreCase(KNOWN_FIRMWARE_HASHES[i], hash)
  }

  predicate ManufacturerAllowed(allowed: seq<string>, manufacturer: string) {
    exists i :: 0 <= i < |allowed| && EqIgnoreCase(allowed[i], manufacturer)
  }

  lemma SameLower(s: string, t: string)
    ensures EqIgnoreCase(s, t) <==> Lower(s) == Lower(t)
  {
    if Lower(s) == Lower(t) {
      forall i | 0 <= i < |s| ensures LowerChar(s[i]) == LowerChar(t[i]) {
        assert Lower(s)[i] == Lower(t)[i];
      }
    }
  }

  lemma AllowedIff(allowed: seq<string>, manufacturer: string)
    ensures ManufacturerAllowed(allowed, manufacturer) <==>
      exists i :: 0 <= i < |allowed| && Lower(allowed[i]) == Lower(manufacturer)
  {
    forall i | 0 <= i < |allowed|
      ensures EqIgnoreCase(allowed[i], manufacturer) <==> Lower(allowed[i]) == Lower(manufacturer)
    {
      SameLower(allowed[i], manufacturer);
    }
  }

  /** A firmware hash is known exactly when it is one of these three up to letter case. */
  lemma KnownHashIff(hash: string)
    ensures FirmwareHashIsKnown(hash) <==>
      || Lower(hash) == Lower("a1b2c3d4e5f6a7b8c9d0e1f2a3b4c5d6e7f8a9b0c1d2e3f4a5b6c7d8e9f0a1b2")
      || Lower(hash) == Lower("f1e2d3c4b5a69788796a5b4c3d2e1f0a1b2c3d4e5f6a7b8c9d0e1f2a3b4c5d6")
      || Lower(hash) == Lower("0123456789abcdef0123456789abcdef0123456789abcdef0123456789abcdef")
  {
    var known := KNOWN_FIRMWARE_HASHES;
    SameLower(known[0], hash);
    SameLower(known[1], hash);
    SameLower(known[2], hash);
    KnownIsListed(hash);
  }

  lemma KnownIsListed(hash: string)
    ensures FirmwareHashIsKnown(hash) <==>
      || EqIgnoreCase(KNOWN_FIRMWARE_HASHES[0], hash)
      || EqIgnoreCase(KNOWN_FIRMWARE_HASHES[1], hash)
      || EqIgnoreCase(KNOWN_FIRMWARE_HASHES[2], hash)
  {
  }

  /** The accepted versions. */
  lemma CompliantVersionIff(version: string)
    ensures version in COMPLIANT_FIRMWARE_VERSIONS <==> version in {"1.0.0", "1.1.0", "1.2.0", "2.0.0"}
  {
    assert COMPLIANT_FIRMWARE_VERSIONS == ["1.0.0", "1.1.0", "1.2.0", "2.0.0"];
  }

  method VerifyCompliance(firmwareHash: string, config: string, attestation: string,
                          expectedVersion: string, allowed: seq<string>)
    returns (r: Result<ComplianceOutput, string>)
    ensures r.Err? <==> FieldOf(config, "manufacturer").None?
    ensures r.Err? ==> r.error == "config parse error: " + "device_config missing manufacturer field"
    ensures r.Ok? ==>
      var version := FieldOf(config, "firmware_version");
      var manufacturer := FieldOf(config, "manufacturer").value;
      && (r.value.verified <==>
           && FirmwareHashIsKnown(firmwareHash)
           && version.Some? && version.value in COMPLIANT_FIRMWARE_VERSIONS
           && LexLe(expectedVersion, version.value)
           && ManufacturerAllowed(allowed, manufacturer))
      && (r.value.manufacturerAllowed <==> ManufacturerAllowed(allowed, manufacturer))
      && r.value.complianceVersion == (if version.Some? then version.value else "unknown")
      && r.value.deviceConfigHash == ConfigHash(config)
      && r.value.timestamp == 0
  {
    var configHash := ComputeConfigHash(config);
    var manufacturer := ExtractManufacturer(config);
    if manufacturer.Err? {
      return Err("config parse error: " + manufacturer.error);
    }
    var extracted := ExtractFirmwareVersion(config);
    var version := if extracted.Ok? then extracted.value else "";
    var firmwareKnown := FirmwareHashIsKnown(firmwareHash);
    var versionCompliant := version in COMPLIANT_FIRMWARE_VERSIONS;
    var manufacturerAllowed := ManufacturerAllowed(allowed, manufacturer.value);
    var meetsMinimum := LexLe(expectedVersion, version);
    var verified := firmwareKnown && versionCompliant && meetsMinimum && manufacturerAllowed;
    r := Ok(ComplianceOutput(verified, manufacturerAllowed, version, configHash, 0));
  }

  /** The second listed firmware hash has 63 digits, so no 64-digit SHA-256 digest can match it. */
  lemma OnlyTwoDigestsAreKnown(hash: string)
    requires |hash| == 64
    ensures FirmwareHashIsKnown(hash) <==>
      EqIgnoreCase(KNOWN_FIRMWARE_HASHES[0], hash) || EqIgnoreCase(KNOWN_FIRMWARE_HASHES[2], hash)
  {
    assert |KNOWN_FIRMWARE_HASHES[1]| == 63;
  }

  /** The listed versions, as numbers. */
  lemma ListedVersions(x: nat, y: nat, z: nat)
    requires Dotted(x, y, z) in COMPLIANT_FIRMWARE_VERSIONS
    ensures (x == 1 && y <= 2 && z == 0) || (x == 2 && y == 0 && z == 0)
  {
    var i :| 0 <= i < 4 && COMPLIANT_FIRMWARE_VERSIONS[i] == Dotted(x, y, z);
    if i < 3 {
      assert COMPLIANT_FIRMWARE_VERSIONS[i] == Dotted(1, i, 0);
      DottedInjective(x, y, z, 1, i, 0);
    } else {
      assert COMPLIANT_FIRMWARE_VERSIONS[i] == Dotted(2, 0, 0);
      DottedInjective(x, y, z, 2, 0, 0);
    }
  }

  /** The minimum is compared as text. For a required a.b.c and a listed version x.y.z this is the numeric
      comparison except in two cases: 2.0.0 meets every a of two or more digits starting with 1, and 1.2.0
      meets every 1.b with such a b. */
  lemma MinimumIsNumericIff(a: nat, b: nat, c: nat, x: nat, y: nat, z: nat)
    requires Dotted(x, y, z) in COMPLIANT_FIRMWARE_VERSIONS
    ensures (LexLe(Dotted(a, b, c), Dotted(x, y, z)) <==> NumericLe(a, b, c, x, y, z))
        <==> !(x == 2 && a >= 10 && Leading(a) == 1) && !(x == 1 && y == 2 && a == 1 && b >= 10 && Leading(b) == 1)
  {
    ListedVersions(x, y, z);
    TextOrderIff(a, b, c, x, y, z);
  }

  /** Both cases occur: 2.0.0 meets a required 10.0.0, and 1.2.0 a required 1.10.0. */
  lemma MinimumFails()
    ensures LexLe(Dotted(10, 0, 0), Dotted(2, 0, 0)) && Dotted(2, 0, 0) in COMPLIANT_FIRMWARE_VERSIONS
    ensures LexLe(Dotted(1, 10, 0), Dotted(1, 2, 0)) && Dotted(1, 2, 0) in COMPLIANT_FIRMWARE_VERSIONS
  {
    assert Dotted(2, 0, 0) == COMPLIANT_FIRMWARE_VERSIONS[3];
    assert Dotted(1, 2, 0) == COMPLIANT_FIRMWARE_VERSIONS[2];
    MinimumIsNumericIff(10, 0, 0, 2, 0, 0);
    MinimumIsNumericIff(1, 10, 0, 1, 2, 0);
  }
}
