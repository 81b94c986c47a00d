/**
 Names of the metadata objects: how publishers and subscribers print them and
 how the orphan sweep reads them back with
 `sscanf(name, "ros2_cuda_ipc_%u_%u%c", ...)`.
 */
module ShmNames {
  import opened Machine

  predicate IsDigit(c: char) { '0' <= c <= '9' }

  predicate IsSpace(c: char) { c == ' ' || '\t' <= c <= '\r' }

  function DigitValue(c: char): nat
    requires IsDigit(c)
  {
    c as int - '0' as int
  }

  function DigitChar(d: nat): (c: char)
    requires d < 10
    ensures IsDigit(c) && DigitValue(c) == d
  {
    ('0' as int + d) as char
  }

  /** Decimal text of an unsigned integer, as a stream prints it. */
  function Decimal(n: nat): (s: string)
    ensures |s| > 0 && forall i :: 0 <= i < |s| ==> IsDigit(s[i])
  {
    if n < 10 then [DigitChar(n)] else Decimal(n / 10) + [DigitChar(n % 10)]
  }

  const PREFIX: string := "ros2_cuda_ipc_"

  /** The directory entry of a block's metadata object. */
  function EntryName(pid: nat, blockId: nat): string {
    PREFIX + Decimal(pid) + "_" + Decimal(blockId)
  }

  /** `shm_name_for_block`, and the name that `BufferMetadataCache` attaches to. */
  function ShmName(pid: nat, blockId: nat): string {
    "/" + EntryName(pid, blockId)
  }

  // ----- scanning -----

  datatype Scan<T> = Fail | Match(value: T, rest: string)

  function ScanLiteral(s: string, literal: string): Scan<()> {
    if literal <= s then Match((), s[|literal|..]) else Fail
  }

  function SkipSpace(s: string): string {
    if s != "" && IsSpace(s[0]) then SkipSpace(s[1..]) else s
  }

  function DigitRun(s: string): (n: nat)
    ensures n <= |s| && forall i :: 0 <= i < n ==> IsDigit(s[i])
  {
    if s == "" || !IsDigit(s[0]) then 0 else 1 + DigitRun(s[1..])
  }

  function Value(digits: string): nat
    requires forall i :: 0 <= i < |digits| ==> IsDigit(digits[i])
  {
    if digits == "" then 0
    else Value(digits[..|digits| - 1]) * 10 + DigitValue(digits[|digits| - 1])
  }

  /** `strtoul` of a digit run, cut to 32 bits as `%u` stores it. */
  function Convert(v: nat, negative: bool): nat {
    Wrap(if v > U64_MAX then U64_MAX else if negative && v > 0 then U64_MAX + 1 - v else v, U32_MAX + 1)
  }

  function ScanDigits(s: string, negative: bool): Scan<nat> {
    var n := DigitRun(s);
    if n == 0 then Fail else Match(Convert(Value(s[..n]), negative), s[n..])
  }

  /** `%u`: white space, an optional sign, digits. */
  function ScanUnsigned(s: string): Scan<nat> {
    var t := SkipSpace(s);
    if t != "" && (t[0] == '+' || t[0] == '-') then ScanDigits(t[1..], t[0] == '-')
    else ScanDigits(t, false)
  }

  function ParseBlockId(s: string): Option<nat> {
    match ScanUnsigned(s)
    case Fail => None
    case Match(blockId, suffix) => if suffix == "" then Some(blockId) else None
  }

  function ParseIds(s: string): Option<(nat, nat)> {
    match ScanUnsigned(s)
    case Fail => None
    case Match(pid, s') =>
      match ScanLiteral(s', "_")
      case Fail => None
      case Match(_, s'') =>
        var blockId := ParseBlockId(s'');
        if blockId.Some? && pid != 0 then Some((pid, blockId.value)) else None
  }

  /** The pid and block id of an entry the sweep considers: exactly two conversions and a nonzero pid. */
  function ParseEntry(name: string): Option<(nat, nat)> {
    match ScanLiteral(name, PREFIX)
    case Fail => None
    case Match(_, ids) => ParseIds(ids)
  }

  // ----- round trip -----

  lemma {:induction false} DecimalValue(n: nat)
    ensures Value(Decimal(n)) == n
  {
    if n >= 10 {
      DecimalValue(n / 10);
      assert Decimal(n)[..|Decimal(n)| - 1] == Decimal(n / 10);
    }
  }

  lemma {:induction false} RunStops(digits: string, rest: string)
    requires forall i :: 0 <= i < |digits| ==> IsDigit(digits[i])
    requires rest == "" || !IsDigit(rest[0])
    ensures DigitRun(digits + rest) == |digits|
  {
    if digits == "" {
      assert digits + rest == rest;
    } else {
      assert (digits + rest)[1..] == digits[1..] + rest;
      RunStops(digits[1..], rest);
    }
  }

  lemma ScanDecimalDigits(n: nat, rest: string)
    requires n <= U32_MAX && (rest == "" || !IsDigit(rest[0]))
    ensures ScanDigits(Decimal(n) + rest, false) == Match(n, rest)
  {
    var s := Decimal(n) + rest;
    RunStops(Decimal(n), rest);
    assert s[..|Decimal(n)|] == Decimal(n) && s[|Decimal(n)|..] == rest;
    DecimalValue(n);
  }

  /** A printed 32-bit number is scanned back, up to the first character that is no digit. */
  lemma ScanDecimal(n: nat, rest: string)
    requires n <= U32_MAX && (rest == "" || !IsDigit(rest[0]))
    ensures ScanUnsigned(Decimal(n) + rest) == Match(n, rest)
  {
    var s := Decimal(n) + rest;
    assert s[0] == Decimal(n)[0] && IsDigit(s[0]);
    ScanDecimalDigits(n, rest);
  }

  lemma BlockIdRoundTrip(blockId: nat)
    requires blockId <= U32_MAX
    ensures ParseBlockId(Decimal(blockId)) == Some(blockId)
  {
    assert Decimal(blockId) + "" == Decimal(blockId);
    ScanDecimal(blockId, "");
  }

  lemma IdsRoundTrip(pid: nat, blockId: nat)
    requires 0 < pid <= U32_MAX && blockId <= U32_MAX
    ensures ParseIds(Decimal(pid) + ("_" + Decimal(blockId))) == Some((pid, blockId))
  {
    var tail := "_" + Decimal(blockId);
    ScanDecimal(pid, tail);
    assert tail[1..] == Decimal(blockId);
    BlockIdRoundTrip(blockId);
  }

  lemma EntryIds(ids: string)
    ensures ParseEntry(PREFIX + ids) == ParseIds(ids)
  {
    PrefixScans(ids);
  }

  lemma NameParts(pid: nat, blockId: nat)
    ensures EntryName(pid, blockId) == PREFIX + (Decimal(pid) + ("_" + Decimal(blockId)))
    ensures ShmName(pid, blockId)[1..] == EntryName(pid, blockId)
  {
  }

  /** Parsing the printed name recovers the pid and the block id. */
  lemma NameRoundTrip(pid: nat, blockId: nat)
    requires 0 < pid <= U32_MAX && blockId <= U32_MAX
    ensures ParseEntry(EntryName(pid, blockId)) == Some((pid, blockId))
    ensures ShmName(pid, blockId)[1..] == EntryName(pid, blockId)
  {
    NameParts(pid, blockId);
    EntryIds(Decimal(pid) + ("_" + Decimal(blockId)));
    IdsRoundTrip(pid, blockId);
  }

  lemma PrefixScans(ids: string)
    ensures ScanLiteral(PREFIX + ids, PREFIX) == Match((), ids)
  {
    assert (PREFIX + ids)[|PREFIX|..] == ids;
  }

  /** Distinct blocks have distinct names. */
  lemma NamesInjective(pid: nat, blockId: nat, pid': nat, blockId': nat)
    requires 0 < pid <= U32_MAX && blockId <= U32_MAX && 0 < pid' <= U32_MAX && blockId' <= U32_MAX
    requires ShmName(pid, blockId) == ShmName(pid', blockId')
    ensures pid == pid' && blockId == blockId'
  {
    NameRoundTrip(pid, blockId);
    NameRoundTrip(pid', blockId');
  }

  // ----- which names are accepted -----

  /** A run of digits, perhaps with a sign, perhaps after white space. */
  datatype Numeral = Numeral(space: string, sign: string, digits: string)

  predicate Wellformed(n: Numeral) {
    && (forall i :: 0 <= i < |n.space| ==> IsSpace(n.space[i]))
    && (n.sign == "" || n.sign == "+" || n.sign == "-")
    && n.digits != "" && forall i :: 0 <= i < |n.digits| ==> IsDigit(n.digits[i])
  }

  function Text(n: Numeral): string {
    n.space + (n.sign + n.digits)
  }

  function Number(n: Numeral): nat
    requires Wellformed(n)
  {
    Convert(Value(n.digits), n.sign == "-")
  }

  lemma {:induction false} SpaceSkipped(space: string, rest: string)
    requires forall i :: 0 <= i < |space| ==> IsSpace(space[i])
    requires rest == "" || !IsSpace(rest[0])
    ensures SkipSpace(space + rest) == rest
  {
    if space == "" {
      assert space + rest == rest;
    } else {
      assert (space + rest)[1..] == space[1..] + rest;
      SpaceSkipped(space[1..], rest);
    }
  }

  lemma ScanDigitsText(digits: string, rest: string, negative: bool)
    requires digits != "" && forall i :: 0 <= i < |digits| ==> IsDigit(digits[i])
    requires rest == "" || !IsDigit(rest[0])
    ensures ScanDigits(digits + rest, negative) == Match(Convert(Value(digits), negative), rest)
  {
    RunStops(digits, rest);
    assert (digits + rest)[..|digits|] == digits && (digits + rest)[|digits|..] == rest;
  }

  /** White space is what C's `isspace` says. */
  lemma SpaceExactly(c: char)
    ensures IsSpace(c) <==> c in [' ', '\t', '\n', 11 as char, 12 as char, '\r']
  {
  }

  /** A numeral that fits is taken modulo 2^32, negated if it has a minus sign; one that does not fit gives 2^32 - 1. */
  lemma ConvertExactly(v: nat, negative: bool)
    ensures Convert(v, negative) <= U32_MAX
    ensures v > 0xFFFF_FFFF_FFFF_FFFF ==> Convert(v, negative) == 0xFFFF_FFFF
    ensures v <= 0xFFFF_FFFF_FFFF_FFFF ==>
      if negative then (Convert(v, negative) + v) % 0x1_0000_0000 == 0
      else Convert(v, negative) == v % 0x1_0000_0000
  {
    var x := if v > U64_MAX then U64_MAX else if negative && v > 0 then U64_MAX + 1 - v else v;
    WrapIsMod(x, 0x1_0000_0000);
    if negative && 0 < v <= U64_MAX {
      assert x % 0x1_0000_0000 + v == 0x1_0000_0000 * (0x1_0000_0000 - x / 0x1_0000_0000) + 0;
      RemainderUnique(x % 0x1_0000_0000 + v, 0x1_0000_0000, 0x1_0000_0000 - x / 0x1_0000_0000, 0);
    }
  }

  /** `%u` reads a numeral up to the first character that is no digit. */
  lemma NumeralScans(n: Numeral, rest: string)
    requires Wellformed(n) && (rest == "" || !IsDigit(rest[0]))
    ensures ScanUnsigned(Text(n) + rest) == Match(Number(n), rest)
  {
    var tail := n.sign + (n.digits + rest);
    assert Text(n) + rest == n.space + tail;
    SpaceSkipped(n.space, tail);
    if n.sign != "" {
      assert tail[1..] == n.digits + rest;
    } else {
      assert tail == n.digits + rest;
    }
    ScanDigitsText(n.digits, rest, n.sign == "-");
  }

  lemma {:induction false} SpaceSplit(s: string) returns (space: string)
    ensures s == space + SkipSpace(s) && forall i :: 0 <= i < |space| ==> IsSpace(space[i])
    ensures SkipSpace(s) == "" || !IsSpace(SkipSpace(s)[0])
    decreases |s|
  {
    space := "";
    if s != "" && IsSpace(s[0]) {
      var more := SpaceSplit(s[1..]);
      space := [s[0]] + more;
    }
  }

  lemma {:induction false} RunEnds(s: string)
    ensures DigitRun(s) == |s| || !IsDigit(s[DigitRun(s)])
    decreases |s|
  {
    if s != "" && IsDigit(s[0]) {
      RunEnds(s[1..]);
    }
  }

  /** What `%u` has read is a numeral. */
  lemma ScannedIsNumeral(s: string) returns (n: Numeral)
    requires ScanUnsigned(s).Match?
    ensures Wellformed(n) && s == Text(n) + ScanUnsigned(s).rest && ScanUnsigned(s).value == Number(n)
    ensures var rest := ScanUnsigned(s).rest; rest == "" || !IsDigit(rest[0])
  {
    var space := SpaceSplit(s);
    var sign, u := SignSplit(s);
    var digits := ScannedDigits(u, sign == "-");
    n := Numeral(space, sign, digits);
    Assembled(n, ScanUnsigned(s).rest);
  }

  lemma Assembled(n: Numeral, rest: string)
    ensures n.space + (n.sign + (n.digits + rest)) == Text(n) + rest
  {
  }

  lemma SignSplit(s: string) returns (sign: string, u: string)
    ensures SkipSpace(s) == sign + u && (sign == "" || sign == "+" || sign == "-")
    ensures ScanUnsigned(s) == ScanDigits(u, sign == "-")
  {
    var t := SkipSpace(s);
    sign, u := "", t;
    if t != "" && (t[0] == '+' || t[0] == '-') {
      sign, u := [t[0]], t[1..];
    } else {
      assert "" + t == t;
    }
  }

  lemma ScannedDigits(u: string, negative: bool) returns (digits: string)
    requires ScanDigits(u, negative).Match?
    ensures digits != "" && forall i :: 0 <= i < |digits| ==> IsDigit(digits[i])
    ensures u == digits + ScanDigits(u, negative).rest
    ensures ScanDigits(u, negative).value == Convert(Value(digits), negative)
    ensures var rest := ScanDigits(u, negative).rest; rest == "" || !IsDigit(rest[0])
  {
    var k := DigitRun(u);
    RunEnds(u);
    digits := u[..k];
    assert u == u[..k] + u[k..];
  }

  /** The ids that an entry names: the prefix, a numeral that is not 0, an underscore, and a numeral that ends it. */
  predicate Names(entry: string, pid: Numeral, blockId: Numeral) {
    && Wellformed(pid) && Wellformed(blockId) && Number(pid) != 0
    && entry == PREFIX + (Text(pid) + ("_" + Text(blockId)))
  }

  lemma NamesParses(entry: string, pid: Numeral, blockId: Numeral)
    requires Names(entry, pid, blockId)
    ensures ParseEntry(entry) == Some((Number(pid), Number(blockId)))
  {
    var tail := "_" + Text(blockId);
    EntryIds(Text(pid) + tail);
    NumeralScans(pid, tail);
    assert tail[1..] == Text(blockId) && Text(blockId) + "" == Text(blockId);
    NumeralScans(blockId, "");
  }

  lemma ParsedNames(entry: string) returns (pid: Numeral, blockId: Numeral)
    requires ParseEntry(entry).Some?
    ensures Names(entry, pid, blockId)
  {
    var ids := entry[|PREFIX|..];
    pid := ScannedIsNumeral(ids);
    var rest := ScanUnsigned(ids).rest;
    blockId := ScannedIsNumeral(rest[1..]);
    assert rest == "_" + rest[1..];
    assert rest[1..] == Text(blockId) + "" == Text(blockId);
    assert entry == PREFIX + ids;
  }

  /**
   The sweep considers exactly the entries that consist of the prefix, a numeral that is not
   0, an underscore and a numeral, with nothing after it; what it takes them for is the
   two numbers.
   */
  lemma AcceptedExactly(entry: string)
    ensures ParseEntry(entry).Some? <==> exists pid, blockId :: Names(entry, pid, blockId)
    ensures forall pid, blockId :: Names(entry, pid, blockId) ==>
      ParseEntry(entry) == Some((Number(pid), Number(blockId)))
  {
    forall pid, blockId | Names(entry, pid, blockId)
      ensures ParseEntry(entry) == Some((Number(pid), Number(blockId)))
    {
      NamesParses(entry, pid, blockId);
    }
    if ParseEntry(entry).Some? {
      var pid, blockId := ParsedNames(entry);
    }
  }

  /** A name with anything but a digit at its end is left alone. */
  lemma AcceptedEndsInDigit(entry: string)
    requires ParseEntry(entry).Some?
    ensures entry != "" && IsDigit(entry[|entry| - 1])
  {
    var pid, blockId := ParsedNames(entry);
    var digits := blockId.digits;
    assert entry[|entry| - 1] == digits[|digits| - 1];
  }

  // ----- the sweep -----

  predicate Orphaned(name: string, running: set<nat>) {
    ParseEntry(name).Some? && ParseEntry(name).value.0 !in running
  }

  /**
   `cleanup_orphaned_metadata_objects` over the entries of /dev/shm.  `running`
   holds the pids for which `kill(pid, 0)` does not fail with ESRCH.  Among the
   metadata objects in the directory exactly those of dead processes go.
   */
  method Sweep(entries: seq<string>, running: set<nat>) returns (unlinked: set<string>)
    ensures forall name :: name in unlinked <==> name in entries && Orphaned(name, running)
    ensures forall pid, blockId :: 0 < pid <= U32_MAX && 0 <= blockId <= U32_MAX ==>
      (EntryName(pid, blockId) in unlinked <==> EntryName(pid, blockId) in entries && pid !in running)
    ensures forall name :: name in unlinked ==> name != "" && IsDigit(name[|name| - 1])
  {
    unlinked := {};
    for i := 0 to |entries|
      invariant forall name :: name in unlinked <==> name in entries[..i] && Orphaned(name, running)
    {
      assert entries[..i + 1] == entries[..i] + [entries[i]];
      var parsed := ParseEntry(entries[i]);
      if parsed.None? {
        continue;
      }
      if parsed.value.0 in running {
        continue;
      }
      unlinked := unlinked + {entries[i]};
    }
    assert entries[..|entries|] == entries;
    forall pid, blockId | 0 < pid <= U32_MAX && 0 <= blockId <= U32_MAX
      ensures EntryName(pid, blockId) in unlinked <==> EntryName(pid, blockId) in entries && pid !in running
    {
      NameRoundTrip(pid, blockId);
    }
    forall name | name in unlinked ensures name != "" && IsDigit(name[|name| - 1]) {
      AcceptedEndsInDigit(name);
    }
  }
}
