/** `subnet_management.py`: validation of a proposed subnet against the
    subnets already allocated, and the CSV registry of named allocations
    (`subnets.csv`, columns `Name` and `Subnet`). */
module SubnetManagement {
  import opened Wrappers
  import opened Text
  import opened IPv4

  /** The `ValueError`s that `validate_subnet` and the loaders raise. */
  datatype SubnetError =
    | Malformed(reason: NetworkError)            // ip_network refused the text
    | WrongTokenCount(count: nat)                // `address, netmask = s.split()` failed to unpack
    | InvalidNetmask(netmask: string)            // "Invalid netmask: ..."
    | Overlap(candidate: Subnet, existing: Subnet) // "Subnet ... overlaps with existing subnet ..."
    | MissingKey(key: string)                    // KeyError: no column of the header record has that name
    | UnknownField(field: string)                // ValueError of DictWriter: dict contains fields not in fieldnames

  /** `ip_network(text, strict=False)`, its error wrapped. */
  function ParseLoose(text: string): (r: Result<Subnet, SubnetError>)
    ensures r.Ok? <==> ParseNetwork(text, false).Ok?
    ensures r.Ok? ==> r.value == ParseNetwork(text, false).value
  {
    match ParseNetwork(text, false)
    case Ok(n) => Ok(n)
    case Err(e) => Err(Malformed(e))
  }

  // ---------------------------------------------------------------------
  // validate_subnet
  // ---------------------------------------------------------------------

  /** The parsing half of `validate_subnet`: strip the text; with a space in
      it, it must be `address netmask`, and the netmask becomes the number of
      its one bits; otherwise it is handed to `ip_network` as it is. */
  function ParseSubnetInput(input: string): (r: Result<Subnet, SubnetError>)
    ensures ' ' in Strip(input) && |Tokens(Strip(input))| != 2 ==>
      r == Err(WrongTokenCount(|Tokens(Strip(input))|))
    ensures ' ' in Strip(input) && |Tokens(Strip(input))| == 2 && ParseAddress(Tokens(Strip(input))[1]).None? ==>
      r == Err(InvalidNetmask(Tokens(Strip(input))[1]))
    ensures ' ' in Strip(input) && |Tokens(Strip(input))| == 2 && ParseAddress(Tokens(Strip(input))[1]).Some? ==>
      r == ParseLoose(Tokens(Strip(input))[0] + "/" + Decimal(PopCount(ParseAddress(Tokens(Strip(input))[1]).value)))
    ensures ' ' !in Strip(input) ==> r == ParseLoose(Strip(input))
  {
    var s := Strip(input);
    if ' ' in s then
      var tokens := Tokens(s);
      if |tokens| != 2 then Err(WrongTokenCount(|tokens|))
      else
        match ParseAddress(tokens[1])
        case None => Err(InvalidNetmask(tokens[1]))
        case Some(mask) => ParseLoose(tokens[0] + "/" + Decimal(MaskBits(mask)))
    else ParseLoose(s)
  }

  /** `existing` parses (loosely) and does not overlap `candidate`. */
  predicate Compatible(candidate: Subnet, existing: string)
  {
    ParseNetwork(existing, false).Ok? && !Overlaps(candidate, ParseNetwork(existing, false).value)
  }

  /** The index of the first entry that does not parse or that overlaps
      `candidate`; `|existing|` when there is none. */
  function FirstConflict(candidate: Subnet, existing: seq<string>): (k: nat)
    ensures k <= |existing|
    ensures forall i :: 0 <= i < k ==> Compatible(candidate, existing[i])
    ensures k < |existing| ==> !Compatible(candidate, existing[k])
  {
    if existing == [] then 0
    else if !Compatible(candidate, existing[0]) then 0
    else 1 + FirstConflict(candidate, existing[1..])
  }

  /** The error raised for an entry that is not compatible with the
      candidate: its parse error, or the overlap. */
  function ConflictError(candidate: Subnet, text: string): SubnetError
  {
    match ParseNetwork(text, false)
    case Err(e) => Malformed(e)
    case Ok(e) => Overlap(candidate, e)
  }

  /** The loop of `validate_subnet` over `existing_subnets`: the candidate is
      returned when every entry parses and none overlaps it; otherwise the
      error of the first entry, in list order, that does not parse or that
      overlaps. */
  function CheckAgainst(candidate: Subnet, existing: seq<string>): (r: Result<Subnet, SubnetError>)
    ensures r.Ok? <==> forall i :: 0 <= i < |existing| ==> Compatible(candidate, existing[i])
    ensures r.Ok? ==> r.value == candidate
    ensures r.Err? ==>
      (FirstConflict(candidate, existing) < |existing|
       && r.error == ConflictError(candidate, existing[FirstConflict(candidate, existing)]))
  {
    if existing == [] then Ok(candidate)
    else
      match ParseNetwork(existing[0], false)
      case Err(e) => Err(Malformed(e))
      case Ok(e) =>
        if Overlaps(candidate, e) then Err(Overlap(candidate, e))
        else
          var r := CheckAgainst(candidate, existing[1..]);
          var k := FirstConflict(candidate, existing[1..]);
          assert Compatible(candidate, existing[0]);
          assert FirstConflict(candidate, existing) == 1 + k;
          assert k < |existing[1..]| ==> existing[1..][k] == existing[k + 1];
          assert forall i :: 1 <= i < |existing| ==> existing[i] == existing[1..][i - 1];
          r
  }

  /** `validate_subnet(subnet_input, existing_subnets)`. */
  function ValidateSubnet(input: string, existing: seq<string>): (r: Result<Subnet, SubnetError>)
    ensures ParseSubnetInput(input).Err? ==> r == ParseSubnetInput(input)
    ensures r.Ok? <==> ParseSubnetInput(input).Ok?
                       && forall i :: 0 <= i < |existing| ==> Compatible(ParseSubnetInput(input).value, existing[i])
    ensures r.Ok? ==> r == ParseSubnetInput(input)
    ensures existing == [] ==> r == ParseSubnetInput(input)
  {
    match ParseSubnetInput(input)
    case Err(e) => Err(e)
    case Ok(candidate) => CheckAgainst(candidate, existing)
  }

  // ---------------------------------------------------------------------
  // Properties of the parser
  // ---------------------------------------------------------------------

  lemma NoSpaceCidr(a: string, d: string)
    requires a != [] && NoSpace(a) && IsDecimal(d) && d != []
    ensures NoSpace(a + "/" + d)
    ensures Strip(a + "/" + d) == a + "/" + d
    ensures ' ' !in a + "/" + d
  {
    var t := a + "/" + d;
    forall k | 0 <= k < |t|
      ensures !IsSpace(t[k])
    {
      if k < |a| {
        assert t[k] == a[k];
      } else if k > |a| {
        assert t[k] == d[k - |a| - 1];
      }
    }
    StripKeepsCore(t, []);
    assert t + [] == t;
  }

  /** `"address netmask"` is `"address/k"` where `k` counts the one bits of
      the netmask, whether or not those bits are contiguous. */
  lemma NetmaskFormIsPopCount(a: string, m: string, mask: Address)
    requires a != [] && NoSpace(a) && m != [] && NoSpace(m)
    requires ParseAddress(m) == Some(mask)
    ensures ParseSubnetInput(a + " " + m) == ParseSubnetInput(a + "/" + Decimal(PopCount(mask)))
  {
    var s := a + " " + m;
    assert s[|a|] == ' ';
    assert !IsSpace(s[0]) && !IsSpace(s[|s| - 1]) by {
      assert s[0] == a[0];
      assert s[|s| - 1] == m[|m| - 1];
    }
    StripKeepsCore(s, []);
    assert s + [] == s;
    TokensOfTwoWords(a, m);
    NoSpaceCidr(a, Decimal(PopCount(mask)));
  }

  /** For a contiguous netmask the two forms agree with the prefix itself:
      `"10.8.0.0 255.255.255.0"` is `"10.8.0.0/24"`. */
  lemma ContiguousNetmaskForm(a: string, p: Prefix)
    requires a != [] && NoSpace(a)
    ensures ParseSubnetInput(a + " " + AddressText(NetmaskOf(p))) == ParseSubnetInput(a + "/" + Decimal(p))
  {
    var m := AddressText(NetmaskOf(p));
    AddressRoundTrip(NetmaskOf(p));
    AddressTextNoSpace(NetmaskOf(p));
    PopCountOfNetmask(p);
    NetmaskFormIsPopCount(a, m, NetmaskOf(p));
  }

  lemma AddressTextNoSpace(x: Address)
    ensures AddressText(x) != [] && NoSpace(AddressText(x))
  {
    var y1 := x / 256;
    var y2 := y1 / 256;
    var parts := [Decimal(y2 / 256), Decimal(y2 % 256), Decimal(y1 % 256), Decimal(x % 256)];
    var t := AddressText(x);
    assert t == parts[0] + "." + Join(parts[1..], '.');
    forall c | IsSpace(c)
      ensures c !in t
    {
      forall i | 0 <= i < 4
        ensures c !in parts[i]
      {
        DecimalAvoids([y2 / 256, y2 % 256, y1 % 256, x % 256][i], c);
      }
      JoinAvoids(parts, '.', c);
    }
  }

  /** `validate_subnet("10.8.0.5/24")` is `10.8.0.0/24`: the network is the
      address with its host bits cleared. */
  lemma HostBitsAreCleared(x: Address, p: Prefix)
    ensures ParseSubnetInput(AddressText(x) + "/" + Decimal(p)) == Ok(Network(MaskHostBits(x, p), p))
  {
    AddressTextNoSpace(x);
    NoSpaceCidr(AddressText(x), Decimal(p));
    ParseCidr(x, p);
  }

  /** Parsing the text of a parsed subnet gives the same subnet. */
  lemma ParseIsIdempotent(input: string)
    requires ParseSubnetInput(input).Ok?
    ensures ParseSubnetInput(NetworkText(ParseSubnetInput(input).value)) == ParseSubnetInput(input)
  {
    var n := ParseSubnetInput(input).value;
    AddressTextNoSpace(n.address);
    NoSpaceCidr(AddressText(n.address), Decimal(n.prefix));
    NetworkRoundTrip(n, false);
  }

  /** An allocation text parses back to its subnet and overlaps it, so
      validating the same subnet a second time is refused. */
  lemma DuplicateIsRefused(input: string, n: Subnet)
    requires ParseSubnetInput(input) == Ok(n)
    ensures ValidateSubnet(input, [NetworkText(n)]) == Err(Overlap(n, n))
  {
    NetworkRoundTrip(n, false);
    OverlapsItself(n);
  }

  // ---------------------------------------------------------------------
  // The registry file
  // ---------------------------------------------------------------------

  const TunnelName: string := "openvpn_tunnel_subnet"
  const LanName: string := "server_local_private_subnet"

  predicate IsRoleName(name: string)
  {
    name == TunnelName || name == LanName
  }

  /** One CSV record: `Name,Subnet`. */
  datatype Row = Row(name: string, subnet: string)

  const Header: Row := Row("Name", "Subnet")

  /** One entry of the dictionary `get_client_subnets` returns. */
  datatype Entry = Entry(name: string, subnet: Subnet)

  function Names(d: seq<Entry>): (r: seq<string>)
    ensures |r| == |d| && forall i :: 0 <= i < |d| ==> r[i] == d[i].name
  {
    if d == [] then [] else [d[0].name] + Names(d[1..])
  }

  /** The Name column. */
  function RowNames(rows: seq<Row>): (r: seq<string>)
    ensures |r| == |rows| && forall i :: 0 <= i < |rows| ==> r[i] == rows[i].name
  {
    if rows == [] then [] else RowNames(rows[..|rows| - 1]) + [rows[|rows| - 1].name]
  }

  /** `d[name] = subnet` on an insertion-ordered dictionary: an existing key
      keeps its place and takes the new value, a new key goes last. */
  function Put(d: seq<Entry>, name: string, subnet: Subnet): seq<Entry>
  {
    if d == [] then [Entry(name, subnet)]
    else if d[0].name == name then [Entry(name, subnet)] + d[1..]
    else [d[0]] + Put(d[1..], name, subnet)
  }

  /** What `Put` does to a dictionary without repeated keys: the keys stay
      distinct, a present key keeps its place, a new key goes last, every
      other entry is unchanged and the key holds the new value. */
  lemma PutMeaning(d: seq<Entry>, name: string, subnet: Subnet)
    requires NoDuplicates(Names(d))
    ensures NoDuplicates(Names(Put(d, name, subnet)))
    ensures name in Names(d) ==> |Put(d, name, subnet)| == |d| && Names(Put(d, name, subnet)) == Names(d)
    ensures name !in Names(d) ==> Names(Put(d, name, subnet)) == Names(d) + [name]
    ensures forall i :: 0 <= i < |Put(d, name, subnet)| && Put(d, name, subnet)[i].name != name ==>
      i < |d| && Put(d, name, subnet)[i] == d[i]
    ensures forall i :: 0 <= i < |Put(d, name, subnet)| && Put(d, name, subnet)[i].name == name ==>
      Put(d, name, subnet)[i].subnet == subnet
  {
    PutNames(d, name, subnet);
    PutEntries(d, name, subnet);
  }

  /** A sequence headed by `x` has no duplicates exactly when its tail has
      none and does not hold `x`. */
  lemma NoDuplicatesCons<T>(x: T, s: seq<T>)
    ensures NoDuplicates([x] + s) <==> x !in s && NoDuplicates(s)
  {
    var t := [x] + s;
    assert forall i :: 0 <= i < |s| ==> t[i + 1] == s[i];
    if NoDuplicates(t) {
      forall k | 0 <= k < |s|
        ensures s[k] != x
      {
        assert t[0] != t[k + 1];
      }
      forall i, j | 0 <= i < j < |s|
        ensures s[i] != s[j]
      {
        assert t[i + 1] != t[j + 1];
      }
    }
    if x !in s && NoDuplicates(s) {
      forall i, j | 0 <= i < j < |t|
        ensures t[i] != t[j]
      {
        if i > 0 {
          assert t[i] == s[i - 1] && t[j] == s[j - 1];
        } else {
          assert t[j] == s[j - 1];
        }
      }
    }
  }

  /** The keys after `Put`. */
  lemma {:induction false} PutNames(d: seq<Entry>, name: string, subnet: Subnet)
    requires NoDuplicates(Names(d))
    ensures NoDuplicates(Names(Put(d, name, subnet)))
    ensures name in Names(d) ==> Names(Put(d, name, subnet)) == Names(d)
    ensures name !in Names(d) ==> Names(Put(d, name, subnet)) == Names(d) + [name]
  {
    if d != [] {
      var r := Put(d, name, subnet);
      assert Names(d) == [d[0].name] + Names(d[1..]);
      NoDuplicatesCons(d[0].name, Names(d[1..]));
      if d[0].name == name {
        assert r == [Entry(name, subnet)] + d[1..];
        assert Names(r) == [name] + Names(d[1..]);
      } else {
        var rest := Put(d[1..], name, subnet);
        PutNames(d[1..], name, subnet);
        assert r == [d[0]] + rest;
        assert Names(r) == [d[0].name] + Names(rest);
        assert d[0].name !in Names(rest);
        NoDuplicatesCons(d[0].name, Names(rest));
      }
    }
  }

  /** The entries after `Put`. */
  lemma {:induction false} PutEntries(d: seq<Entry>, name: string, subnet: Subnet)
    requires NoDuplicates(Names(d))
    ensures forall i :: 0 <= i < |Put(d, name, subnet)| && Put(d, name, subnet)[i].name != name ==>
      i < |d| && Put(d, name, subnet)[i] == d[i]
    ensures forall i :: 0 <= i < |Put(d, name, subnet)| && Put(d, name, subnet)[i].name == name ==>
      Put(d, name, subnet)[i].subnet == subnet
  {
    if d != [] {
      var r := Put(d, name, subnet);
      assert Names(d) == [d[0].name] + Names(d[1..]);
      NoDuplicatesCons(d[0].name, Names(d[1..]));
      if d[0].name == name {
        assert r == [Entry(name, subnet)] + d[1..];
        forall i | 1 <= i < |d|
          ensures d[i].name != name
        {
          assert d[i] == d[1..][i - 1];
          assert Names(d[1..])[i - 1] == d[i].name;
        }
      } else {
        var rest := Put(d[1..], name, subnet);
        PutEntries(d[1..], name, subnet);
        assert r == [d[0]] + rest;
        forall i | 1 <= i < |r|
          ensures r[i] == rest[i - 1]
        {
        }
        forall i | 1 <= i < |d|
          ensures d[i] == d[1..][i - 1]
        {
        }
      }
    }
  }

  /** The index of the first row with this name. */
  function FirstNamed(rows: seq<Row>, name: string): (r: Option<nat>)
    ensures r.Some? ==>
      (r.value < |rows| && rows[r.value].name == name
       && forall j :: 0 <= j < r.value ==> rows[j].name != name)
    ensures r.None? ==> forall j :: 0 <= j < |rows| ==> rows[j].name != name
  {
    if rows == [] then None
    else if rows[0].name == name then Some(0)
    else match FirstNamed(rows[1..], name)
      case None => None
      case Some(i) => Some(i + 1)
  }

  /** The index of the last row with this name. */
  function LastNamed(rows: seq<Row>, name: string): (r: Option<nat>)
    ensures r.Some? ==>
      (r.value < |rows| && rows[r.value].name == name
       && forall j :: r.value < j < |rows| ==> rows[j].name != name)
    ensures r.None? ==> forall j :: 0 <= j < |rows| ==> rows[j].name != name
  {
    if rows == [] then None
    else if rows[|rows| - 1].name == name then Some(|rows| - 1)
    else LastNamed(rows[..|rows| - 1], name)
  }

  /** The rows `remove_client_from_csv` keeps: all rows with another name. */
  function Without(rows: seq<Row>, name: string): seq<Row>
  {
    if rows == [] then []
    else Without(rows[..|rows| - 1], name) + (if rows[|rows| - 1].name == name then [] else [rows[|rows| - 1]])
  }

  /** `ip_network(row["Subnet"])`, strict, as the lookups parse it. */
  function ParseStrict(text: string): (r: Result<Subnet, SubnetError>)
    ensures r.Err? ==> r.error == Malformed(NotANetwork(text)) || r.error == Malformed(HostBitsSet(text))
  {
    match ParseNetwork(text, true)
    case Ok(n) => Ok(n)
    case Err(e) => Err(Malformed(e))
  }

  /** Strict parsing accepts exactly the texts that loose parsing accepts
      without clearing a host bit of the given address, and then gives the
      same network. */
  lemma StrictRefinesLoose(text: string)
    ensures ParseStrict(text).Ok? <==>
      ParseLoose(text).Ok? && ParseLoose(text).value.address == ParseAddress(Split(text, '/')[0]).value
    ensures ParseStrict(text).Ok? ==> ParseStrict(text).value == ParseLoose(text).value
  {
  }

  /** What `get_subnet_by_name` returns for the Subnet text of the record
      found: the strictly parsed subnet, or the error. */
  function LookupText(text: string): (r: Result<Option<Subnet>, SubnetError>)
    ensures r.Ok? <==> ParseNetwork(text, true).Ok?
    ensures r.Ok? ==> r.value == Some(ParseNetwork(text, true).value)
  {
    match ParseStrict(text)
    case Ok(n) => Ok(Some(n))
    case Err(e) => Err(e)
  }

  /** The dictionary `get_client_subnets` builds from the rows in file order. */
  function ClientView(rows: seq<Row>): (r: Result<seq<Entry>, SubnetError>)
    ensures r.Ok? ==> NoDuplicates(Names(r.value))
  {
    if rows == [] then Ok([])
    else
      match ClientView(rows[..|rows| - 1])
      case Err(e) => Err(e)
      case Ok(d) =>
        var row := rows[|rows| - 1];
        if IsRoleName(row.name) then Ok(d)
        else
          match ParseStrict(row.subnet)
          case Err(e) => Err(e)
          case Ok(n) => PutNames(d, row.name, n); Ok(Put(d, row.name, n))
  }

  // ---------------------------------------------------------------------
  // Reading records by key, as csv.DictReader and csv.DictWriter do
  // ---------------------------------------------------------------------

  /** The header record has a column of that name. */
  predicate HasKey(h: Row, key: string)
  {
    h.name == key || h.subnet == key
  }

  /** `row[key]` for a record `r` that `csv.DictReader` reads under the
      header record `h`: the value of the last column named `key`, or none
      when no column has that name and the lookup raises `KeyError`. */
  function Field(h: Row, r: Row, key: string): (v: Option<string>)
    ensures v.Some? <==> HasKey(h, key)
    ensures h.name == key && h.subnet != key ==> v == Some(r.name)
    ensures h.subnet == key ==> v == Some(r.subnet)
  {
    if h.subnet == key then Some(r.subnet)
    else if h.name == key then Some(r.name)
    else None
  }

  /** `row.get(key, "")`: also what `csv.DictWriter` writes for a missing key. */
  function FieldOr(h: Row, r: Row, key: string): string
  {
    match Field(h, r, key)
    case Some(v) => v
    case None => ""
  }

  /** A data record seen through its keys, in the column order `Name`, `Subnet`. */
  function ByKey(h: Row, r: Row): Row
  {
    Row(FieldOr(h, r, "Name"), FieldOr(h, r, "Subnet"))
  }

  /** The data records seen through their keys. Under the header this
      module writes, each record is seen as it is. */
  function Keyed(h: Row, data: seq<Row>): (r: seq<Row>)
    ensures |r| == |data| && forall i :: 0 <= i < |data| ==> r[i] == ByKey(h, data[i])
    ensures h == Header ==> r == data
  {
    if data == [] then [] else [ByKey(h, data[0])] + Keyed(h, data[1..])
  }

  /** `csv.DictWriter` with the fields `Name` and `Subnet` writes a dict
      read under `h` only when every key of `h` is one of those. */
  predicate WriterAccepts(h: Row)
  {
    (h.name == "Name" || h.name == "Subnet") && (h.subnet == "Name" || h.subnet == "Subnet")
  }

  /** Every record carries one of the two role names. */
  predicate RolesOnly(rows: seq<Row>)
  {
    rows == [] || (RolesOnly(rows[..|rows| - 1]) && IsRoleName(rows[|rows| - 1].name))
  }

  lemma {:induction false} RolesOnlyMeaning(rows: seq<Row>)
    ensures RolesOnly(rows) <==> forall j :: 0 <= j < |rows| ==> IsRoleName(rows[j].name)
  {
    if rows != [] {
      var init := rows[..|rows| - 1];
      RolesOnlyMeaning(init);
      assert forall j :: 0 <= j < |init| ==> rows[j] == init[j];
    }
  }

  /** The key of `h` that `csv.DictWriter` refuses. */
  function UnknownFieldOf(h: Row): string
  {
    if h.name == "Name" || h.name == "Subnet" then h.subnet else h.name
  }

  /** `subnets.csv`: whether the file exists, and its records in file order.
      `csv.DictReader` takes the first record as the header and yields every
      later record as a dict keyed by the header's columns. */
  class Registry {
    var fileExists: bool
    var rows: seq<Row>

    ghost predicate Valid()
      reads this
    {
      !fileExists ==> rows == []
    }

    /** The file was written by this module: it begins with the header. */
    predicate HasHeader()
      reads this
    {
      fileExists ==> |rows| >= 1 && rows[0] == Header
    }

    /** The data records `csv.DictReader` yields, seen through the keys of
        the first record; an empty file has neither header nor data. */
    function Records(): seq<Row>
      reads this
    {
      if |rows| == 0 then [] else Keyed(rows[0], rows[1..])
    }

    /** `row[key]` raises on no data record: there is no file, no record
        after the first, or the first record has a column `key`. */
    predicate Readable(key: string)
      reads this
    {
      !fileExists || |rows| <= 1 || HasKey(rows[0], key)
    }

    constructor Absent()
      ensures Valid() && !fileExists && rows == []
    {
      fileExists := false;
      rows := [];
    }

    constructor Existing(content: seq<Row>)
      ensures Valid() && fileExists && rows == content
    {
      fileExists := true;
      rows := content;
    }

    /** The Subnet column `load_existing_subnets` reads: empty when there
        is no file. */
    function SubnetList(): seq<string>
      reads this
    {
      if fileExists then SubnetColumn(Records()) else []
    }

    /** `load_existing_subnets`: the Subnet column in file order, or nothing
        when there is no file; `KeyError` when a data record has no
        `Subnet` key. */
    method LoadExistingSubnets() returns (r: Result<seq<string>, SubnetError>)
      ensures r.Ok? <==> Readable("Subnet")
      ensures r.Err? ==> r.error == MissingKey("Subnet")
      ensures r.Ok? ==> r.value == SubnetList()
      ensures !fileExists ==> r == Ok([])
      ensures fileExists && r.Ok? ==>
        (|r.value| == |Records()|
         && forall i :: 0 <= i < |r.value| ==> r.value[i] == Records()[i].subnet)
    {
      if !fileExists {
        return Ok([]);
      }
      var records := Records();
      var subnets := [];
      var i := 0;
      while i < |records|
        invariant 0 <= i <= |records|
        invariant |subnets| == i && forall j :: 0 <= j < i ==> subnets[j] == records[j].subnet
        invariant i > 0 ==> HasKey(rows[0], "Subnet")
      {
        if !HasKey(rows[0], "Subnet") {
          return Err(MissingKey("Subnet"));
        }
        subnets := subnets + [records[i].subnet];
        i := i + 1;
      }
      assert subnets == SubnetColumn(records);
      return Ok(subnets);
    }

    /** `save_subnet_to_csv`: append one record, after a header when the file
        did not exist yet. */
    method SaveSubnet(name: string, subnet: Subnet)
      requires Valid()
      modifies this
      ensures Valid() && fileExists
      ensures rows == (if old(fileExists) then old(rows) else [Header]) + [Row(name, NetworkText(subnet))]
      ensures old(HasHeader()) ==> HasHeader() && Records() == old(Records()) + [Row(name, NetworkText(subnet))]
    {
      if !fileExists {
        rows := [Header];
        fileExists := true;
      }
      rows := rows + [Row(name, NetworkText(subnet))];
    }

    /** `remove_client_from_csv`: read every data record, `KeyError` when one
        has no `Name` key; then rewrite the file, header first, without the
        records of that name. `DictWriter` raises `ValueError` on the first
        record with a key other than `Name` and `Subnet`, after the header
        has been written. Nothing happens when there is no file. */
    method RemoveClient(name: string) returns (r: Result<(), SubnetError>)
      requires Valid()
      modifies this
      ensures Valid() && fileExists == old(fileExists)
      ensures !old(fileExists) ==> r == Ok(()) && rows == old(rows)
      ensures !old(Readable("Name")) ==> r == Err(MissingKey("Name")) && rows == old(rows)
      ensures old(fileExists) && old(Readable("Name")) ==>
        var kept := Without(old(Records()), name);
        if kept != [] && |old(rows)| >= 2 && !WriterAccepts(old(rows)[0])
        then r == Err(UnknownField(UnknownFieldOf(old(rows)[0]))) && rows == [Header]
        else r == Ok(()) && rows == [Header] + kept
      ensures old(HasHeader()) ==> r == Ok(()) && HasHeader() && Records() == Without(old(Records()), name)
    {
      r := Ok(());
      if fileExists {
        var records := Records();
        var kept := [];
        var i := 0;
        while i < |records|
          invariant 0 <= i <= |records|
          invariant kept == Without(records[..i], name)
          invariant i > 0 ==> HasKey(rows[0], "Name")
        {
          if !HasKey(rows[0], "Name") {
            return Err(MissingKey("Name"));
          }
          assert records[..i + 1][..i] == records[..i];
          if records[i].name != name {
            kept := kept + [records[i]];
          }
          i := i + 1;
        }
        assert records[..|records|] == records;
        if kept != [] {
          assert records != [];
          var header := rows[0];
          if !WriterAccepts(header) {
            rows := [Header];
            return Err(UnknownField(UnknownFieldOf(header)));
          }
        }
        rows := [Header] + kept;
      }
    }

    /** `get_subnet_by_name`: the strictly parsed subnet of the first record
        with that name; `None` when there is none or no file; `KeyError`
        when a record read has no `Name` key, or the one found no `Subnet`
        key. */
    method GetSubnetByName(name: string) returns (r: Result<Option<Subnet>, SubnetError>)
      ensures !Readable("Name") ==> r == Err(MissingKey("Name"))
      ensures Readable("Name") && (!fileExists || FirstNamed(Records(), name).None?) ==> r == Ok(None)
      ensures Readable("Name") && fileExists && FirstNamed(Records(), name).Some? ==>
        r == if Readable("Subnet") then LookupText(Records()[FirstNamed(Records(), name).value].subnet)
             else Err(MissingKey("Subnet"))
    {
      if !fileExists {
        return Ok(None);
      }
      var records := Records();
      // an empty file yields no record, and then the header is never consulted
      var header := if |rows| == 0 then Header else rows[0];
      r := FindByName(records, name, HasKey(header, "Name"), HasKey(header, "Subnet"));
    }

    /** `get_client_subnets`: every record except the two role names, later
        records overriding earlier ones; a record that does not parse
        strictly raises, and so does a missing `Name` key, or a missing
        `Subnet` key on a client record. */
    method GetClientSubnets() returns (r: Result<seq<Entry>, SubnetError>)
      ensures !fileExists ==> r == Ok([])
      ensures !Readable("Name") ==> r == Err(MissingKey("Name"))
      ensures fileExists && Readable("Name") && !Readable("Subnet") ==>
        r == if RolesOnly(Records()) then Ok([]) else Err(MissingKey("Subnet"))
      ensures fileExists && Readable("Name") && Readable("Subnet") ==> r == ClientView(Records())
    {
      if !fileExists {
        return Ok([]);
      }
      var records := Records();
      // an empty file yields no record, and then the header is never consulted
      var header := if |rows| == 0 then Header else rows[0];
      // the header is the same for every record, so the Subnet column is
      // looked for once
      if HasKey(header, "Subnet") {
        r := ReadClients(records, HasKey(header, "Name"));
      } else {
        r := ScanClients(records, HasKey(header, "Name"));
      }
    }
  }

  /** The loop of `get_subnet_by_name` over the data records, `nameKey` and
      `subnetKey` saying whether the header has those columns: `row["Name"]`
      is read on every record up to the first with that name, and
      `row["Subnet"]` on that one. */
  method FindByName(records: seq<Row>, name: string, nameKey: bool, subnetKey: bool)
    returns (r: Result<Option<Subnet>, SubnetError>)
    ensures records != [] && !nameKey ==> r == Err(MissingKey("Name"))
    ensures (records == [] || nameKey) && FirstNamed(records, name).None? ==> r == Ok(None)
    ensures (records == [] || nameKey) && FirstNamed(records, name).Some? ==>
      r == if subnetKey then LookupText(records[FirstNamed(records, name).value].subnet)
           else Err(MissingKey("Subnet"))
  {
    var i := 0;
    while i < |records|
      invariant 0 <= i <= |records|
      invariant forall j :: 0 <= j < i ==> records[j].name != name
      invariant i > 0 ==> nameKey
    {
      if !nameKey {
        return Err(MissingKey("Name"));
      }
      if records[i].name == name {
        assert FirstNamed(records, name) == Some(i);
        if !subnetKey {
          return Err(MissingKey("Subnet"));
        }
        return LookupText(records[i].subnet);
      }
      i := i + 1;
    }
    return Ok(None);
  }

  /** The loop of `get_client_subnets` over the data records when the header
      has a `Subnet` column, `nameKey` saying whether it has a `Name` one:
      `row["Name"]` is read on every record and raises without that column. */
  method ReadClients(records: seq<Row>, nameKey: bool) returns (r: Result<seq<Entry>, SubnetError>)
    ensures records != [] && !nameKey ==> r == Err(MissingKey("Name"))
    ensures records == [] || nameKey ==> r == ClientView(records)
  {
    var d := [];
    var i := 0;
    while i < |records|
      invariant 0 <= i <= |records|
      invariant ClientView(records[..i]) == Ok(d)
      invariant i > 0 ==> nameKey
    {
      if !nameKey {
        return Err(MissingKey("Name"));
      }
      var next := AddClient(records, i, d);
      if next.Err? {
        ClientViewKeepsError(records, i + 1);
        assert records[..|records|] == records;
        return next;
      }
      d := next.value;
      i := i + 1;
    }
    assert records[..|records|] == records;
    r := Ok(d);
  }

  /** One turn of that loop: a role record is skipped, a client record is
      parsed strictly and assigned into the dictionary `d` built so far. */
  method AddClient(records: seq<Row>, i: nat, d: seq<Entry>) returns (next: Result<seq<Entry>, SubnetError>)
    requires i < |records| && ClientView(records[..i]) == Ok(d)
    ensures next == ClientView(records[..i + 1])
  {
    ClientViewExtend(records, i);
    var row := records[i];
    if IsRoleName(row.name) {
      return Ok(d);
    }
    var parsed := ParseStrict(row.subnet);
    if parsed.Err? {
      return Err(parsed.error);
    }
    return Ok(Put(d, row.name, parsed.value));
  }

  /** The same loop when the header has no `Subnet` column: role records are
      skipped, and `row["Subnet"]` raises on the first client record. */
  method ScanClients(records: seq<Row>, nameKey: bool) returns (r: Result<seq<Entry>, SubnetError>)
    ensures records != [] && !nameKey ==> r == Err(MissingKey("Name"))
    ensures records == [] || nameKey ==> r == if RolesOnly(records) then Ok([]) else Err(MissingKey("Subnet"))
  {
    var i := 0;
    while i < |records|
      invariant 0 <= i <= |records|
      invariant RolesOnly(records[..i])
      invariant i > 0 ==> nameKey
    {
      if !nameKey {
        return Err(MissingKey("Name"));
      }
      assert records[..i + 1][..i] == records[..i];
      if !IsRoleName(records[i].name) {
        RolesOnlyMeaning(records);
        return Err(MissingKey("Subnet"));
      }
      i := i + 1;
    }
    assert records[..|records|] == records;
    return Ok([]);
  }

  /** `ClientView` of one more row. */
  lemma ClientViewExtend(rows: seq<Row>, i: nat)
    requires i < |rows| && ClientView(rows[..i]).Ok?
    ensures IsRoleName(rows[i].name) ==> ClientView(rows[..i + 1]) == ClientView(rows[..i])
    ensures !IsRoleName(rows[i].name) && ParseStrict(rows[i].subnet).Err? ==>
      ClientView(rows[..i + 1]) == Err(ParseStrict(rows[i].subnet).error)
    ensures !IsRoleName(rows[i].name) && ParseStrict(rows[i].subnet).Ok? ==>
      ClientView(rows[..i + 1]) == Ok(Put(ClientView(rows[..i]).value, rows[i].name, ParseStrict(rows[i].subnet).value))
  {
    assert rows[..i + 1][..i] == rows[..i];
  }

  /** Once a prefix of the rows raises, so do all the rows. */
  lemma {:induction false} ClientViewKeepsError(rows: seq<Row>, k: nat)
    requires k <= |rows| && ClientView(rows[..k]).Err?
    ensures ClientView(rows) == ClientView(rows[..k])
    decreases |rows| - k
  {
    if k < |rows| {
      assert rows[..k + 1][..k] == rows[..k];
      ClientViewKeepsError(rows, k + 1);
    } else {
      assert rows[..k] == rows;
    }
  }

  // ---------------------------------------------------------------------
  // Properties of the registry operations
  // ---------------------------------------------------------------------

  /** Removal keeps exactly the rows with another name. */
  lemma {:induction false} WithoutMembers(rows: seq<Row>, name: string)
    ensures forall r :: r in Without(rows, name) <==> r in rows && r.name != name
  {
    if rows != [] {
      WithoutMembers(rows[..|rows| - 1], name);
      assert rows == rows[..|rows| - 1] + [rows[|rows| - 1]];
    }
  }

  /** Removal keeps the order of the rows it keeps: it distributes over
      concatenation. */
  lemma {:induction false} WithoutConcat(a: seq<Row>, b: seq<Row>, name: string)
    ensures Without(a + b, name) == Without(a, name) + Without(b, name)
    decreases |b|
  {
    if b == [] {
      assert a + b == a;
    } else {
      assert (a + b)[..|a + b| - 1] == a + b[..|b| - 1];
      WithoutConcat(a, b[..|b| - 1], name);
    }
  }

  /** Removing a name no row has changes nothing. */
  lemma {:induction false} WithoutAbsent(rows: seq<Row>, name: string)
    requires forall i :: 0 <= i < |rows| ==> rows[i].name != name
    ensures Without(rows, name) == rows
  {
    if rows != [] {
      WithoutAbsent(rows[..|rows| - 1], name);
    }
  }

  /** A row appended under a name not yet present is the one found by name,
      and its text parses back to the saved subnet. A row appended under a
      name that is present does not change what is found. */
  lemma SavedSubnetIsFound(rows: seq<Row>, name: string, n: Subnet)
    ensures FirstNamed(rows, name).None? ==>
      FirstNamed(rows + [Row(name, NetworkText(n))], name) == Some(|rows|)
    ensures FirstNamed(rows, name).Some? ==>
      FirstNamed(rows + [Row(name, NetworkText(n))], name) == FirstNamed(rows, name)
    ensures ParseStrict(NetworkText(n)) == Ok(n)
  {
    NetworkRoundTrip(n, true);
    FirstNamedAppend(rows, Row(name, NetworkText(n)), name);
  }

  lemma {:induction false} FirstNamedAppend(rows: seq<Row>, row: Row, name: string)
    ensures FirstNamed(rows + [row], name) ==
      if FirstNamed(rows, name).Some? then FirstNamed(rows, name)
      else if row.name == name then Some(|rows|) else None
  {
    if rows != [] {
      assert (rows + [row])[1..] == rows[1..] + [row];
      FirstNamedAppend(rows[1..], row, name);
    }
  }

  /** One step of `ClientView`: the last row is skipped (a role name) or
      put into the dictionary of the rows before it. */
  lemma ClientViewStep(rows: seq<Row>)
    requires rows != [] && ClientView(rows).Ok?
    ensures ClientView(rows[..|rows| - 1]).Ok?
    ensures IsRoleName(rows[|rows| - 1].name) ==> ClientView(rows).value == ClientView(rows[..|rows| - 1]).value
    ensures !IsRoleName(rows[|rows| - 1].name) ==>
      (ParseStrict(rows[|rows| - 1].subnet).Ok?
       && ClientView(rows).value ==
          Put(ClientView(rows[..|rows| - 1]).value, rows[|rows| - 1].name, ParseStrict(rows[|rows| - 1].subnet).value))
  {
  }

  /** The keys of `get_client_subnets` are exactly the names of the rows,
      except the two role names. */
  lemma {:induction false} ClientViewKeys(rows: seq<Row>)
    requires ClientView(rows).Ok?
    ensures forall k :: k in Names(ClientView(rows).value) <==> !IsRoleName(k) && k in RowNames(rows)
  {
    if rows != [] {
      var init := rows[..|rows| - 1];
      var row := rows[|rows| - 1];
      ClientViewStep(rows);
      if !IsRoleName(row.name) {
        PutMeaning(ClientView(init).value, row.name, ParseStrict(row.subnet).value);
      }
      ClientViewKeys(init);
      assert RowNames(rows) == RowNames(init) + [row.name];
    }
  }

  /** The entry holds the strictly parsed subnet of the last row with its name. */
  predicate HoldsLast(rows: seq<Row>, e: Entry)
  {
    LastNamed(rows, e.name).Some? && ParseStrict(rows[LastNamed(rows, e.name).value].subnet) == Ok(e.subnet)
  }

  /** Each key of `get_client_subnets` holds the subnet of the LAST row
      with that name: later records override earlier ones. */
  lemma {:induction false} ClientViewLastWins(rows: seq<Row>)
    requires ClientView(rows).Ok?
    ensures forall j :: 0 <= j < |ClientView(rows).value| ==> HoldsLast(rows, ClientView(rows).value[j])
  {
    if rows != [] {
      var init := rows[..|rows| - 1];
      ClientViewLastWins(init);
      assert rows == init + [rows[|rows| - 1]];
      forall j | 0 <= j < |ClientView(rows).value|
        ensures HoldsLast(rows, ClientView(rows).value[j])
      {
        LastWinsStep(init, rows[|rows| - 1], j);
      }
    }
  }

  /** `ClientViewLastWins` for one entry, from the rows before the last. */
  lemma LastWinsStep(init: seq<Row>, row: Row, j: nat)
    requires ClientView(init + [row]).Ok? && j < |ClientView(init + [row]).value|
    requires ClientView(init).Ok?
    requires forall k :: 0 <= k < |ClientView(init).value| ==> HoldsLast(init, ClientView(init).value[k])
    ensures HoldsLast(init + [row], ClientView(init + [row]).value[j])
  {
    var rows := init + [row];
    assert rows[..|rows| - 1] == init && rows[|rows| - 1] == row;
    var d := ClientView(init).value;
    var e := ClientView(rows).value[j];
    ClientViewStep(rows);
    ClientViewKeys(init);
    if !IsRoleName(row.name) {
      PutMeaning(d, row.name, ParseStrict(row.subnet).value);
    }
    if e.name == row.name {
      assert e.name in Names(ClientView(rows).value);
      assert !IsRoleName(row.name);
      assert LastNamed(rows, row.name) == Some(|rows| - 1);
    } else {
      assert j < |d| && e == d[j];
      assert HoldsLast(init, d[j]);
      assert LastNamed(rows, e.name) == LastNamed(init, e.name);
      assert rows[LastNamed(init, e.name).value] == init[LastNamed(init, e.name).value];
    }
  }

  /** The rows of the registry parse and do not overlap one another: the
      invariant that every allocation preserves. */
  ghost predicate Disjoint(rows: seq<Row>)
  {
    && (forall i :: 0 <= i < |rows| ==> ParseNetwork(rows[i].subnet, false).Ok?)
    && (forall i, j :: 0 <= i < j < |rows| ==>
         !Overlaps(ParseNetwork(rows[i].subnet, false).value, ParseNetwork(rows[j].subnet, false).value))
  }

  /** Appending a subnet that is compatible with every allocated subnet
      keeps the registry free of overlaps. */
  lemma AllocationKeepsDisjoint(rows: seq<Row>, name: string, c: Subnet)
    requires Disjoint(rows)
    requires forall i :: 0 <= i < |rows| ==> Compatible(c, rows[i].subnet)
    ensures Disjoint(rows + [Row(name, NetworkText(c))])
  {
    var rows' := rows + [Row(name, NetworkText(c))];
    NetworkRoundTrip(c, false);
    assert rows'[|rows|].subnet == NetworkText(c);
    forall i | 0 <= i < |rows|
      ensures rows'[i] == rows[i]
    {
    }
    forall i, j | 0 <= i < j < |rows'|
      ensures !Overlaps(ParseNetwork(rows'[i].subnet, false).value, ParseNetwork(rows'[j].subnet, false).value)
    {
      if j == |rows| {
        assert Compatible(c, rows[i].subnet);
        OverlapsMeaning(c, ParseNetwork(rows[i].subnet, false).value);
      }
    }
  }

  /** The Subnet column, as `load_existing_subnets` returns it. */
  function SubnetColumn(rows: seq<Row>): (column: seq<string>)
    ensures |column| == |rows| && forall i :: 0 <= i < |rows| ==> column[i] == rows[i].subnet
  {
    if rows == [] then [] else [rows[0].subnet] + SubnetColumn(rows[1..])
  }
}
