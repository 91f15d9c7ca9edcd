/**
 * The map loader ebpf-emu-in-mn/update_map_value.py: it finds the id of a
 * BPF map in the listing `bpftool map show` prints, then writes line `k`
 * of a trace file into key `k` of that map, one `bpftool map update`
 * command per line, each key and value given as the four decimal bytes of
 * its little-endian 32-bit encoding.
 *
 * The bpftool listing is passed in as its lines (`None` when bpftool
 * fails), and whether a command succeeds is the parameter `succeeds`;
 * commands are collected instead of run.
 */
module MapUpdate {
  import opened Wrappers
  import opened Text
  import opened Frames

  // ---------------------------------------------------------------------
  // int_to_little_endian_bytes

  /** `struct.error`: the `'<I'` format takes 0 <= value <= 4294967295 only. */
  datatype PackError = StructError

  const UINT32_LIMIT: nat := 0x1_0000_0000

  /** The `n` low bytes of `value`, least significant first. */
  function ToLittleEndian(value: nat, n: nat): (bytes: seq<uint8>)
    ensures |bytes| == n
  {
    if n == 0 then [] else [value % 0x100] + ToLittleEndian(value / 0x100, n - 1)
  }

  /** The number whose little-endian bytes are `bytes`. */
  function FromLittleEndian(bytes: seq<uint8>): nat
  {
    if |bytes| == 0 then 0 else bytes[0] + 0x100 * FromLittleEndian(bytes[1..])
  }

  function Pow256(n: nat): (p: nat)
    ensures p >= 1
  {
    if n == 0 then 1 else 0x100 * Pow256(n - 1)
  }

  /** Encoding a value that fits in `n` bytes and decoding it gives the value back. */
  lemma {:induction false} DecodeEncode(value: nat, n: nat)
    requires value < Pow256(n)
    ensures FromLittleEndian(ToLittleEndian(value, n)) == value
  {
    if n > 0 {
      DecodeEncode(value / 0x100, n - 1);
      assert ToLittleEndian(value, n)[1..] == ToLittleEndian(value / 0x100, n - 1);
    }
  }

  /** `n` bytes decode to a number below 256^n. */
  lemma {:induction false} DecodeBound(bytes: seq<uint8>)
    ensures FromLittleEndian(bytes) < Pow256(|bytes|)
  {
    if |bytes| > 0 {
      DecodeBound(bytes[1..]);
    }
  }

  /** Decoding any bytes and encoding the number into as many bytes gives the bytes back. */
  lemma {:induction false} EncodeDecode(bytes: seq<uint8>)
    ensures ToLittleEndian(FromLittleEndian(bytes), |bytes|) == bytes
  {
    if |bytes| > 0 {
      var rest := FromLittleEndian(bytes[1..]);
      var v := FromLittleEndian(bytes);
      assert v % 0x100 == bytes[0] && v / 0x100 == rest;
      EncodeDecode(bytes[1..]);
    }
  }

  /**
   * `int_to_little_endian_bytes`: `struct.pack('<I', value)`.  The
   * `byte_length` argument is accepted and not used.
   */
  function IntToLittleEndianBytes(value: int, byteLength: int := 4): (r: Result<seq<uint8>, PackError>)
    ensures r.Ok? <==> 0 <= value < UINT32_LIMIT
    ensures r.Ok? ==> |r.value| == 4 && FromLittleEndian(r.value) == value
  {
    if 0 <= value < UINT32_LIMIT then
      DecodeEncode(value, 4);
      Ok(ToLittleEndian(value, 4))
    else Err(StructError)
  }

  /** The four bytes weigh 1, 256, 65536 and 16777216. */
  lemma PackedWeights(value: int)
    requires 0 <= value < UINT32_LIMIT
    ensures var b := IntToLittleEndianBytes(value).value;
      value == b[0] as int + 0x100 * b[1] as int + 0x1_0000 * b[2] as int + 0x100_0000 * b[3] as int
  {
    var b := IntToLittleEndianBytes(value).value;
    assert b[1..][1..][1..][1..] == [];
    assert FromLittleEndian(b) == b[0] + 0x100 * FromLittleEndian(b[1..]);
    assert FromLittleEndian(b[1..]) == b[1] + 0x100 * FromLittleEndian(b[1..][1..]);
    assert FromLittleEndian(b[1..][1..]) == b[2] + 0x100 * FromLittleEndian(b[1..][1..][1..]);
  }

  /** Every four bytes are the encoding of exactly one value. */
  lemma PackOnto(bytes: seq<uint8>)
    requires |bytes| == 4
    ensures IntToLittleEndianBytes(FromLittleEndian(bytes)) == Ok(bytes)
  {
    DecodeBound(bytes);
    EncodeDecode(bytes);
  }

  // ---------------------------------------------------------------------
  // generate_bpftool_update_command

  /** The bytes in decimal, as `str(b)` prints them. */
  function DecimalBytes(bytes: seq<uint8>): (strs: seq<string>)
    ensures |strs| == |bytes|
  {
    seq(|bytes|, i requires 0 <= i < |bytes| => NatToString(bytes[i]))
  }

  /**
   * `generate_bpftool_update_command`: the f-string
   * `sudo bpftool map update id {map_id} key {key_list} value {value_list}`,
   * whose literal parts are single words between single spaces, so it is
   * the space-join of those words and the three fields.  It raises
   * `struct.error`, and only that, exactly when the key or the value does
   * not fit in 32 unsigned bits.
   */
  function GenerateBpftoolUpdateCommand(mapId: int, key: int, value: int): (r: Result<string, PackError>)
    ensures r.Ok? <==> 0 <= key < UINT32_LIMIT && 0 <= value < UINT32_LIMIT
    ensures r.Err? ==> r.error == StructError
  {
    match IntToLittleEndianBytes(key)
    case Err(e) => Err(e)
    case Ok(keyBytes) =>
      match IntToLittleEndianBytes(value)
      case Err(e) => Err(e)
      case Ok(valueBytes) =>
        var keyList := Join(DecimalBytes(keyBytes), ' ');
        var valueList := Join(DecimalBytes(valueBytes), ' ');
        Ok(Join(["sudo", "bpftool", "map", "update", "id", IntToString(mapId), "key", keyList, "value", valueList], ' '))
  }

  /** The fixed words before the map id. */
  const CommandWords: seq<string> := ["sudo", "bpftool", "map", "update", "id"]

  /** The sixteen space-free tokens of an update command. */
  function CommandTokens(mapId: int, keyBytes: seq<uint8>, valueBytes: seq<uint8>): seq<string>
  {
    CommandWords + [IntToString(mapId), "key"] + DecimalBytes(keyBytes) + ["value"] + DecimalBytes(valueBytes)
  }

  /** A `bpftool map update` command, read back. */
  datatype Update = Update(mapId: int, key: nat, value: nat)

  /** One decimal byte. */
  function ParseByte(s: string): Option<uint8>
  {
    match ParseNat(s)
    case Some(n) => if n < 0x100 then Some(n) else None
    case None => None
  }

  function ParseBytes(strs: seq<string>): (r: Option<seq<uint8>>)
    ensures r.Some? ==> |r.value| == |strs|
  {
    if |strs| == 0 then Some([])
    else
      match ParseByte(strs[0])
      case None => None
      case Some(b) =>
        match ParseBytes(strs[1..])
        case None => None
        case Some(rest) => Some([b] + rest)
  }

  /** Reads a command of the form the generator writes: map id, key and value. */
  function ParseCommand(command: string): Option<Update>
  {
    var tokens := Split(command, ' ');
    if |tokens| != 16 || tokens[..5] != CommandWords || tokens[6] != "key" || tokens[11] != "value" then None
    else
      match ParseInt(tokens[5])
      case None => None
      case Some(mapId) =>
        match ParseBytes(tokens[7..11])
        case None => None
        case Some(keyBytes) =>
          match ParseBytes(tokens[12..16])
          case None => None
          case Some(valueBytes) => Some(Update(mapId, FromLittleEndian(keyBytes), FromLittleEndian(valueBytes)))
  }

  lemma NoSpaceInInt(i: int)
    ensures ' ' !in IntToString(i)
  {
    if i < 0 {
      assert IntToString(i) == "-" + NatToString(-i);
    }
  }

  lemma {:induction false} ParseDecimalBytes(bytes: seq<uint8>)
    ensures ParseBytes(DecimalBytes(bytes)) == Some(bytes)
  {
    if |bytes| > 0 {
      NatRoundTrip(bytes[0]);
      assert DecimalBytes(bytes)[1..] == DecimalBytes(bytes[1..]);
      ParseDecimalBytes(bytes[1..]);
      assert [bytes[0]] + bytes[1..] == bytes;
    }
  }

  /** Joining the key and value lists into the command joins all their bytes into it. */
  lemma CommandIsJoin(mapIdText: string, ks: seq<string>, vs: seq<string>)
    requires |ks| >= 1 && |vs| >= 1
    ensures Join(["sudo", "bpftool", "map", "update", "id", mapIdText, "key", Join(ks, ' '), "value", Join(vs, ' ')], ' ')
      == Join(CommandWords + [mapIdText, "key"] + ks + ["value"] + vs, ' ')
  {
    var head := CommandWords + [mapIdText, "key"];
    var tail := ["value"] + [Join(vs, ' ')];
    assert ["sudo", "bpftool", "map", "update", "id", mapIdText, "key", Join(ks, ' '), "value", Join(vs, ' ')]
      == head + [Join(ks, ' ')] + tail;
    JoinNested(head, ks, tail, ' ');
    var front := head + ks + ["value"];
    assert head + ks + tail == front + [Join(vs, ' ')] + [];
    JoinNested(front, vs, [], ' ');
    assert front + vs + [] == CommandWords + [mapIdText, "key"] + ks + ["value"] + vs;
  }

  /** No decimal byte holds a space. */
  lemma DecimalBytesNoSpace(bytes: seq<uint8>)
    ensures forall i :: 0 <= i < |bytes| ==> ' ' !in DecimalBytes(bytes)[i]
  {
    forall i | 0 <= i < |bytes| ensures ' ' !in DecimalBytes(bytes)[i] {
      var t := NatToString(bytes[i]);
      assert IsDigit(' ') == false;
      assert forall j :: 0 <= j < |t| ==> IsDigit(t[j]);
    }
  }

  /** None of the sixteen tokens holds a space. */
  lemma TokensNoSpace(mapId: int, kb: seq<uint8>, vb: seq<uint8>)
    requires |kb| == 4 && |vb| == 4
    ensures forall i :: 0 <= i < 16 ==> ' ' !in CommandTokens(mapId, kb, vb)[i]
  {
    var tokens := CommandTokens(mapId, kb, vb);
    var ks, vs := DecimalBytes(kb), DecimalBytes(vb);
    NoSpaceInInt(mapId);
    DecimalBytesNoSpace(kb);
    DecimalBytesNoSpace(vb);
    forall i | 0 <= i < 16 ensures ' ' !in tokens[i] {
      if 7 <= i < 11 {
        assert tokens[i] == ks[i - 7];
      } else if 12 <= i {
        assert tokens[i] == vs[i - 12];
      }
    }
  }

  /** The command is the space-join of its sixteen tokens, none of which holds a space. */
  lemma CommandSplits(mapId: int, key: int, value: int)
    requires GenerateBpftoolUpdateCommand(mapId, key, value).Ok?
    ensures var kb := IntToLittleEndianBytes(key).value; var vb := IntToLittleEndianBytes(value).value;
      Split(GenerateBpftoolUpdateCommand(mapId, key, value).value, ' ') == CommandTokens(mapId, kb, vb)
  {
    var kb := IntToLittleEndianBytes(key).value;
    var vb := IntToLittleEndianBytes(value).value;
    CommandIsJoin(IntToString(mapId), DecimalBytes(kb), DecimalBytes(vb));
    var tokens := CommandTokens(mapId, kb, vb);
    TokensNoSpace(mapId, kb, vb);
    SplitJoin(tokens, ' ');
  }

  /**
   * Reading a generated command back gives the map id, key and value it
   * was made from; generation fails exactly when the key or the value is
   * outside the 32-bit unsigned range.
   */
  lemma CommandRoundTrip(mapId: int, key: int, value: int)
    ensures GenerateBpftoolUpdateCommand(mapId, key, value).Ok? <==>
      0 <= key < UINT32_LIMIT && 0 <= value < UINT32_LIMIT
    ensures GenerateBpftoolUpdateCommand(mapId, key, value).Ok? ==>
      ParseCommand(GenerateBpftoolUpdateCommand(mapId, key, value).value) == Some(Update(mapId, key, value))
  {
    if GenerateBpftoolUpdateCommand(mapId, key, value).Ok? {
      var kb := IntToLittleEndianBytes(key).value;
      var vb := IntToLittleEndianBytes(value).value;
      CommandSplits(mapId, key, value);
      var tokens := CommandTokens(mapId, kb, vb);
      assert tokens[..5] == CommandWords;
      assert tokens[6] == "key" && tokens[11] == "value";
      IntRoundTrip(mapId);
      assert tokens[7..11] == DecimalBytes(kb);
      assert tokens[12..16] == DecimalBytes(vb);
      ParseDecimalBytes(kb);
      ParseDecimalBytes(vb);
    }
  }

  // ---------------------------------------------------------------------
  // Python's int() on text

  predicate DigitsOrUnderscores(s: string)
  {
    forall i :: 0 <= i < |s| ==> IsDigit(s[i]) || s[i] == '_'
  }

  /** Decimal digits with single underscores between them, as `int()` accepts. */
  predicate IsDigitGroups(s: string)
  {
    |s| >= 1 && IsDigit(s[0]) && IsDigit(s[|s| - 1]) && DigitsOrUnderscores(s) &&
    forall i :: 0 <= i < |s| - 1 && s[i] == '_' ==> s[i + 1] != '_'
  }

  /** `s` without its underscores. */
  function DropUnderscores(s: string): (r: string)
    ensures DigitsOrUnderscores(s) ==> AllDigits(r)
  {
    if |s| == 0 then []
    else (if s[0] == '_' then [] else [s[0]]) + DropUnderscores(s[1..])
  }

  lemma {:induction false} DropUnderscoresDigits(s: string)
    requires AllDigits(s)
    ensures DropUnderscores(s) == s
  {
    if |s| > 0 {
      DropUnderscoresDigits(s[1..]);
    }
  }

  /** Digits only are a valid group of digits, and dropping underscores leaves them alone. */
  lemma DigitsAreGroups(s: string)
    requires |s| >= 1 && AllDigits(s)
    ensures IsDigitGroups(s) && DropUnderscores(s) == s
  {
    DropUnderscoresDigits(s);
  }

  /** `int()` on text already stripped: an optional sign, then digit groups. */
  function ParseSignedGroups(t: string): Option<int>
  {
    var body := if |t| >= 1 && (t[0] == '-' || t[0] == '+') then t[1..] else t;
    if IsDigitGroups(body) then
      var n: int := DigitsValue(DropUnderscores(body));
      Some(if |t| >= 1 && t[0] == '-' then -n else n)
    else None
  }

  /**
   * Python `int(s)` in base 10: whitespace around the number is ignored, a
   * sign may lead, and digits may be grouped by single underscores;
   * anything else raises `ValueError` (`None`).
   */
  function ParsePyInt(s: string): Option<int>
  {
    ParseSignedGroups(Strip(s))
  }

  lemma {:induction false} SignedGroupsOfInt(i: int)
    ensures ParseSignedGroups(IntToString(i)) == Some(i)
  {
    var m: nat := if i < 0 then -i else i;
    var digits := NatToString(m);
    DigitsAreGroups(digits);
    DigitsOfNat(m);
    if i < 0 {
      var s := IntToString(i);
      assert s[0] == '-' && s[1..] == digits;
    } else {
      assert IntToString(i) == digits;
    }
  }

  /** `int(str(i)) == i`. */
  lemma ParsePyIntRoundTrip(i: int)
    ensures ParsePyInt(IntToString(i)) == Some(i)
  {
    var s := IntToString(i);
    var digits := NatToString(if i < 0 then -i else i);
    assert s[|s| - 1] == digits[|digits| - 1];
    StripNoSpace(s);
    SignedGroupsOfInt(i);
  }

  // ---------------------------------------------------------------------
  // get_map_id

  /** The exceptions `get_map_id` does not catch. */
  datatype MapIdError = IndexError | ValueError

  /** The id on a listing line: its first whitespace-separated field without the last character, as `int()` reads it. */
  function MapIdOfLine(line: string): Result<int, MapIdError>
  {
    var parts := Fields(line);
    if |parts| == 0 then Err(IndexError)
    else
      match ParsePyInt(parts[0][..|parts[0]| - 1])
      case None => Err(ValueError)
      case Some(id) => Ok(id)
  }

  /** Index of the first line holding `keyword`, `|lines|` when none does. */
  function FirstContaining(lines: seq<string>, keyword: string): (k: nat)
    ensures k <= |lines|
    ensures k < |lines| ==> Contains(lines[k], keyword)
    ensures forall j :: 0 <= j < k ==> !Contains(lines[j], keyword)
  {
    if |lines| == 0 then 0
    else if Contains(lines[0], keyword) then 0
    else 1 + FirstContaining(lines[1..], keyword)
  }

  /**
   * What `get_map_id` returns for the listing (`None` when bpftool failed):
   * no id when bpftool failed or no line holds the keyword, otherwise the
   * id on the first line that does, or the exception reading it raises.
   */
  function FindMapId(keyword: string, listing: Option<seq<string>>): Result<Option<int>, MapIdError>
  {
    match listing
    case None => Ok(None)
    case Some(lines) =>
      var k := FirstContaining(lines, keyword);
      if k == |lines| then Ok(None)
      else
        match MapIdOfLine(lines[k])
        case Err(e) => Err(e)
        case Ok(id) => Ok(Some(id))
  }

  /** `get_map_id`: scan the listing for the first line holding the keyword. */
  method GetMapId(keyword: string, listing: Option<seq<string>>) returns (r: Result<Option<int>, MapIdError>)
    ensures r == FindMapId(keyword, listing)
  {
    if listing.None? {
      return Ok(None);
    }
    var lines := listing.value;
    var i := 0;
    while i < |lines|
      invariant i <= |lines|
      invariant forall j :: 0 <= j < i ==> !Contains(lines[j], keyword)
    {
      if Contains(lines[i], keyword) {
        FindMapIdAt(keyword, lines, i);
        var parts := Fields(lines[i]);
        if |parts| == 0 {
          return Err(IndexError);
        }
        var mapId := ParsePyInt(parts[0][..|parts[0]| - 1]);
        if mapId.None? {
          return Err(ValueError);
        }
        return Ok(Some(mapId.value));
      }
      i := i + 1;
    }
    FindMapIdAt(keyword, lines, |lines|);
    return Ok(None);
  }

  /** The scan stops at line `i` when it is the first holding the keyword, or at the end. */
  lemma FindMapIdAt(keyword: string, lines: seq<string>, i: nat)
    requires i <= |lines| && (i < |lines| ==> Contains(lines[i], keyword))
    requires forall j :: 0 <= j < i ==> !Contains(lines[j], keyword)
    ensures FindMapId(keyword, Some(lines)) ==
      if i == |lines| then Ok(None)
      else match MapIdOfLine(lines[i]) case Err(e) => Err(e) case Ok(id) => Ok(Some(id))
  {
    var k := FirstContaining(lines, keyword);
  }

  lemma {:induction false} TokenLengthOf(t: string, rest: string)
    requires NoSpace(t) && (|rest| == 0 || IsSpace(rest[0]))
    ensures TokenLength(t + rest) == |t|
  {
    if |t| > 0 {
      assert (t + rest)[1..] == t[1..] + rest;
      TokenLengthOf(t[1..], rest);
    } else {
      assert t + rest == rest;
    }
  }

  /**
   * A `bpftool map show` line `<id>: <type>  name <name> ...` yields its id:
   * the first field is the id and its colon.
   */
  lemma MapShowLineId(id: nat, rest: string)
    requires |rest| == 0 || IsSpace(rest[0])
    ensures MapIdOfLine(NatToString(id) + ":" + rest) == Ok(id)
  {
    var t := NatToString(id) + ":";
    assert NoSpace(t);
    var line := t + rest;
    assert line == NatToString(id) + ":" + rest;
    TokenLengthOf(t, rest);
    assert line[..|t|] == t;
    assert Fields(line)[0] == t;
    assert t[..|t| - 1] == NatToString(id);
    ParsePyIntRoundTrip(id);
  }

  /** No id is found exactly when bpftool failed or no line holds the keyword. */
  lemma FindMapIdNone(keyword: string, listing: Option<seq<string>>)
    ensures FindMapId(keyword, listing) == Ok(None) <==>
      listing.None? || forall j :: 0 <= j < |listing.value| ==> !Contains(listing.value[j], keyword)
  {
    if listing.Some? {
      var k := FirstContaining(listing.value, keyword);
      if k < |listing.value| {
        assert Contains(listing.value[k], keyword);
      }
    }
  }

  /**
   * When the first line holding the keyword is the `bpftool map show` line
   * of map `id`, that id is found.
   */
  lemma FindsShownMap(keyword: string, lines: seq<string>, k: nat, id: nat, rest: string)
    requires k < |lines| && lines[k] == NatToString(id) + ":" + rest && (|rest| == 0 || IsSpace(rest[0]))
    requires Contains(lines[k], keyword) && forall j :: 0 <= j < k ==> !Contains(lines[j], keyword)
    ensures FindMapId(keyword, Some(lines)) == Ok(Some(id))
  {
    MapShowLineId(id, rest);
  }

  // ---------------------------------------------------------------------
  // update_bpf_map_from_file

  /** The command for line `key` of the trace file, or `None` when building it raises. */
  function LineCommand(mapId: int, key: nat, line: string): Option<string>
  {
    match ParsePyInt(Strip(line))
    case None => None
    case Some(value) =>
      match GenerateBpftoolUpdateCommand(mapId, key, value)
      case Err(_) => None
      case Ok(command) => Some(command)
  }

  /** The command built for each line of the trace file, line `k` under key `k`. */
  function LineCommands(mapId: int, lines: seq<string>): (built: seq<Option<string>>)
    ensures |built| == |lines|
  {
    seq(|lines|, k requires 0 <= k < |lines| => LineCommand(mapId, k, lines[k]))
  }

  /** Command `k` of `cs` is the one built for line `k`. */
  predicate BuiltInOrder(built: seq<Option<string>>, cs: seq<string>)
  {
    |cs| <= |built| && forall k {:trigger cs[k]} :: 0 <= k < |cs| ==> built[k] == Some(cs[k])
  }

  /**
   * The commands that are run, given the command built for each line:
   * one per line until a line cannot be turned into a command or a command
   * fails, which ends the run (the exception is caught outside the loop).
   * Each command run is the one built for its line, in line order.
   */
  function Issued(built: seq<Option<string>>, succeeds: string -> bool): (cs: seq<string>)
    ensures BuiltInOrder(built, cs)
  {
    if |built| == 0 then []
    else
      match built[0]
      case None => []
      case Some(command) =>
        if succeeds(command) then [command] + Issued(built[1..], succeeds) else [command]
  }

  /** The run from line `key` on, one line at a time. */
  lemma IssuedFrom(built: seq<Option<string>>, succeeds: string -> bool, key: nat)
    requires key < |built|
    ensures Issued(built[key..], succeeds) ==
      match built[key]
      case None => []
      case Some(command) => if succeeds(command) then [command] + Issued(built[key + 1..], succeeds) else [command]
  {
    assert built[key..][0] == built[key];
    assert built[key..][1..] == built[key + 1..];
  }

  /** With `done` issued before line `key`, a line without a command ends the run. */
  lemma IssuedStops(built: seq<Option<string>>, succeeds: string -> bool, key: nat, done: seq<string>)
    requires key < |built| && built[key].None?
    requires Issued(built, succeeds) == done + Issued(built[key..], succeeds)
    ensures Issued(built, succeeds) == done
  {
    IssuedFrom(built, succeeds, key);
    assert done + [] == done;
  }

  /** With `done` issued before line `key`, a failing command is the last one run. */
  lemma IssuedFails(built: seq<Option<string>>, succeeds: string -> bool, key: nat, done: seq<string>)
    requires key < |built| && built[key].Some? && !succeeds(built[key].value)
    requires Issued(built, succeeds) == done + Issued(built[key..], succeeds)
    ensures Issued(built, succeeds) == done + [built[key].value]
  {
    IssuedFrom(built, succeeds, key);
  }

  /** With `done` issued before line `key`, a succeeding command is run and the run goes on. */
  lemma IssuedContinues(built: seq<Option<string>>, succeeds: string -> bool, key: nat, done: seq<string>)
    requires key < |built| && built[key].Some? && succeeds(built[key].value)
    requires Issued(built, succeeds) == done + Issued(built[key..], succeeds)
    ensures Issued(built, succeeds) == done + [built[key].value] + Issued(built[key + 1..], succeeds)
  {
    IssuedFrom(built, succeeds, key);
    var c, rest := built[key].value, Issued(built[key + 1..], succeeds);
    assert done + ([c] + rest) == done + [c] + rest;
  }

  /**
   * The body of the loop of `update_bpf_map_from_file` up to running the
   * command: `None` where `int()` raises `ValueError` or packing raises
   * `struct.error`.
   */
  method BuildCommand(mapId: int, key: nat, line: string) returns (command: Option<string>)
    ensures command == LineCommand(mapId, key, line)
  {
    var value := ParsePyInt(Strip(line));
    if value.None? {
      return None;
    }
    var generated := GenerateBpftoolUpdateCommand(mapId, key, value.value);
    if generated.Err? {
      return None;
    }
    return Some(generated.value);
  }

  /** `update_bpf_map_from_file`: one update command per line, key `k` for line `k`. */
  method UpdateBpfMapFromFile(mapId: int, lines: seq<string>, succeeds: string -> bool) returns (commands: seq<string>)
    ensures commands == Issued(LineCommands(mapId, lines), succeeds)
  {
    ghost var built := LineCommands(mapId, lines);
    commands := [];
    var key := 0;
    while key < |lines|
      invariant key <= |lines|
      invariant Issued(built, succeeds) == commands + Issued(built[key..], succeeds)
    {
      var command := BuildCommand(mapId, key, lines[key]);
      assert built[key] == command;
      if command.None? {
        IssuedStops(built, succeeds, key, commands);
        return;
      }
      if !succeeds(command.value) {
        IssuedFails(built, succeeds, key, commands);
        commands := commands + [command.value];
        return;
      }
      IssuedContinues(built, succeeds, key, commands);
      commands := commands + [command.value];
      key := key + 1;
    }
    assert built[key..] == [];
    assert commands + [] == commands;
  }

  /**
   * Every command but the last succeeded, and a run shorter than the file
   * ended on a line that could not be turned into a command or on a failed
   * command.
   */
  lemma {:induction false} IssuedInOrder(built: seq<Option<string>>, succeeds: string -> bool)
    ensures var cs := Issued(built, succeeds);
      (forall k :: 0 <= k < |cs| - 1 ==> succeeds(cs[k])) &&
      (|cs| < |built| ==> built[|cs|].None? || (|cs| > 0 && !succeeds(cs[|cs| - 1])))
  {
    if |built| > 0 && built[0].Some? && succeeds(built[0].value) {
      IssuedInOrder(built[1..], succeeds);
    }
  }

  /** When every line gives a command and every command succeeds, each line is written. */
  lemma IssuedAll(built: seq<Option<string>>, succeeds: string -> bool)
    requires forall k :: 0 <= k < |built| ==> built[k].Some? && succeeds(built[k].value)
    ensures |Issued(built, succeeds)| == |built|
  {
    IssuedInOrder(built, succeeds);
  }

  /**
   * Read back, `command` writes the integer on `line`, which fits in 32
   * unsigned bits, under `key` of map `mapId`.
   */
  predicate WritesLine(mapId: int, key: nat, line: string, command: string)
  {
    var value := ParsePyInt(Strip(line));
    value.Some? && 0 <= value.value < UINT32_LIMIT &&
    ParseCommand(command) == Some(Update(mapId, key, value.value))
  }

  /** A command built from a line writes the integer on that line under its key. */
  lemma LineCommandReadsBack(mapId: int, key: nat, line: string, command: string)
    requires LineCommand(mapId, key, line) == Some(command)
    ensures WritesLine(mapId, key, line, command)
  {
    CommandRoundTrip(mapId, key, ParsePyInt(Strip(line)).value);
  }

  /** Command `k` of a run writes into key `k` of map `mapId` the integer on line `k`. */
  lemma IssuedWritesLines(mapId: int, lines: seq<string>, succeeds: string -> bool, cs: seq<string>)
    requires cs == Issued(LineCommands(mapId, lines), succeeds)
    ensures |cs| <= |lines|
    ensures forall k :: 0 <= k < |cs| ==> WritesLine(mapId, k, lines[k], cs[k])
  {
    var built := LineCommands(mapId, lines);
    IssuedInOrder(built, succeeds);
    forall k | 0 <= k < |cs|
      ensures WritesLine(mapId, k, lines[k], cs[k])
    {
      assert built[k] == LineCommand(mapId, k, lines[k]);
      LineCommandReadsBack(mapId, k, lines[k], cs[k]);
    }
  }

  // ---------------------------------------------------------------------
  // The script's top level

  /**
   * The script run with `--keyword`: find the map, then write the trace
   * file into it when one is found; `Err` when `get_map_id` raises, which
   * ends the script.  Nothing runs when no map is found; when map `id` is
   * found the commands are those of `update_bpf_map_from_file` for that map,
   * which `IssuedWritesLines` reads back.
   */
  method UpdateMapByKeyword(keyword: string, listing: Option<seq<string>>, lines: seq<string>, succeeds: string -> bool)
    returns (r: Result<seq<string>, MapIdError>)
    ensures FindMapId(keyword, listing).Err? ==> r == Err(FindMapId(keyword, listing).error)
    ensures FindMapId(keyword, listing) == Ok(None) ==> r == Ok([])
    ensures forall id :: FindMapId(keyword, listing) == Ok(Some(id)) ==>
      r == Ok(Issued(LineCommands(id, lines), succeeds))
  {
    var found := GetMapId(keyword, listing);
    if found.Err? {
      return Err(found.error);
    }
    if found.value.None? {
      return Ok([]);
    }
    var commands := UpdateBpfMapFromFile(found.value.value, lines, succeeds);
    return Ok(commands);
  }
}
