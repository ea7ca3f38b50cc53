/**
 * Configuration handling of conffile.c: endpoint defaults, the per-key value
 * parser, picking the input out of the parsed endpoint list, and the validator.
 * The YAML document is given as a list of nodes, each a list of key/value pairs.
 */
module Conffile {
  import opened Common

  /** endpt_config_init: nothing defined yet, retry NO, no protocol, keepalive 0. */
  function InitEndpt(): EndptCfg
  {
    EndptCfg(DirInval, TInval, No, None, None, -1, 0, -255, false)
  }

  // ---------------------------------------------------------------------------
  // strtol(value, NULL, 10): optional white space, an optional sign, then the
  // longest run of decimal digits; no digits at all reads as 0.

  predicate IsDigit(ch: char)
  {
    '0' <= ch <= '9'
  }

  predicate IsSpace(ch: char)
  {
    ch == ' ' || ch == '\t' || ch == '\n' || ch == '\r' || ch == '\U{B}' || ch == '\U{C}'
  }

  predicate AllDigits(d: string)
  {
    forall i :: 0 <= i < |d| ==> IsDigit(d[i])
  }

  function SkipSpace(s: string): string
  {
    if |s| > 0 && IsSpace(s[0]) then SkipSpace(s[1..]) else s
  }

  /** The longest prefix of s made of digits. */
  function LeadingDigits(s: string): string
  {
    if |s| > 0 && IsDigit(s[0]) then [s[0]] + LeadingDigits(s[1..]) else []
  }

  function DigitsValue(d: string): int
  {
    if d == [] then 0 else DigitsValue(d[..|d| - 1]) * 10 + (d[|d| - 1] as int - '0' as int)
  }

  function Strtol(s: string): int
  {
    var t := SkipSpace(s);
    if |t| > 0 && t[0] == '-' then 0 - DigitsValue(LeadingDigits(t[1..]))
    else if |t| > 0 && t[0] == '+' then DigitsValue(LeadingDigits(t[1..]))
    else DigitsValue(LeadingDigits(t))
  }

  /** The decimal digits of n, without leading zeros. */
  function DecimalDigits(n: nat): (d: string)
    ensures |d| > 0 && AllDigits(d)
  {
    var c := ('0' as int + n % 10) as char;
    if n < 10 then [c] else DecimalDigits(n / 10) + [c]
  }

  /** The usual decimal spelling of an integer. */
  function Decimal(n: int): string
  {
    if n < 0 then "-" + DecimalDigits(-n) else DecimalDigits(n)
  }

  lemma {:induction false} LeadingDigitsOfDigits(d: string, rest: string)
    requires AllDigits(d) && (rest == [] || !IsDigit(rest[0]))
    ensures LeadingDigits(d + rest) == d
    decreases |d|
  {
    if d != [] {
      assert (d + rest)[1..] == d[1..] + rest;
      LeadingDigitsOfDigits(d[1..], rest);
    } else {
      assert d + rest == rest;
    }
  }

  lemma {:induction false} DigitsValueOfDecimal(n: nat)
    ensures DigitsValue(DecimalDigits(n)) == n
  {
    var c := ('0' as int + n % 10) as char;
    if n >= 10 {
      var d := DecimalDigits(n / 10);
      assert (d + [c])[..|d + [c]| - 1] == d;
      DigitsValueOfDecimal(n / 10);
    }
  }

  /** strtol of a digit string followed by a non-digit reads the digits. */
  lemma StrtolOfDigits(d: string, rest: string)
    requires d != [] && AllDigits(d) && (rest == [] || !IsDigit(rest[0]))
    ensures Strtol(d + rest) == DigitsValue(d)
  {
    var s := d + rest;
    assert s[0] == d[0] && IsDigit(s[0]);
    assert !IsSpace(s[0]) && s[0] != '-' && s[0] != '+';
    assert SkipSpace(s) == s;
    LeadingDigitsOfDigits(d, rest);
  }

  /** strtol of a minus sign, a digit string and a non-digit reads the negated digits. */
  lemma StrtolOfNegDigits(d: string, rest: string)
    requires d != [] && AllDigits(d) && (rest == [] || !IsDigit(rest[0]))
    ensures Strtol("-" + d + rest) == 0 - DigitsValue(d)
  {
    var s := "-" + d + rest;
    assert s[0] == '-' && !IsSpace(s[0]);
    assert SkipSpace(s) == s;
    assert s[1..] == d + rest;
    LeadingDigitsOfDigits(d, rest);
  }

  /** Round trip: strtol reads back any integer written in decimal, ignoring what follows. */
  lemma StrtolReadsDecimal(n: int, rest: string)
    requires rest == [] || !IsDigit(rest[0])
    ensures Strtol(Decimal(n) + rest) == n
  {
    var m := if n < 0 then -n else n;
    DigitsValueOfDecimal(m);
    if n < 0 {
      StrtolOfNegDigits(DecimalDigits(m), rest);
    } else {
      StrtolOfDigits(DecimalDigits(m), rest);
    }
  }

  // ---------------------------------------------------------------------------
  // endpt_config_set_item

  /** The keys endpt_config_set_item tells apart with its chain of strcmp calls. */
  datatype Key = KDirection | KType | KRetry | KName | KPort | KProtocol | KKeepalive | KUnknown

  /** The spelling of each known key in the configuration file. */
  function KeyName(k: Key): string
    requires k != KUnknown
  {
    match k
    case KDirection => "Direction"
    case KType => "Type"
    case KRetry => "Retry"
    case KName => "Name"
    case KPort => "Port"
    case KProtocol => "Protocol"
    case KKeepalive => "Keepalive"
  }

  /** Which key a key string is, compared in the order endpt_config_set_item compares them. */
  function KeyOf(key: string): Key
  {
    if key == "Direction" then KDirection
    else if key == "Type" then KType
    else if key == "Retry" then KRetry
    else if key == "Name" then KName
    else if key == "Port" then KPort
    else if key == "Protocol" then KProtocol
    else if key == "Keepalive" then KKeepalive
    else KUnknown
  }

  /** A key string is recognised exactly when it is the spelling of a known key. */
  lemma KeyOfName(key: string, k: Key)
    requires k != KUnknown
    ensures KeyOf(KeyName(k)) == k
    ensures KeyOf(key) != KUnknown ==> KeyName(KeyOf(key)) == key
  {
  }

  /** The value a known key stands for in a record. */
  datatype FieldVal = DirVal(d: Dir) | TypeVal(t: EndptType) | RetryVal(r: Retry)
                    | TextVal(s: Option<string>) | IntVal(i: int) | NoField

  function Field(c: EndptCfg, k: Key): FieldVal
  {
    match k
    case KDirection => DirVal(c.dir)
    case KType => TypeVal(c.kind)
    case KRetry => RetryVal(c.retry)
    case KName => TextVal(c.name)
    case KPort => TextVal(c.port)
    case KProtocol => IntVal(c.protocol)
    case KKeepalive => IntVal(c.keepalive)
    case KUnknown => NoField
  }

  /** Which values each key admits (any value, for a key the parser does not know). */
  predicate Accepts(k: Key, value: string)
  {
    match k
    case KDirection => value in {"input", "output"}
    case KType => value in {"socket", "file", "std"}
    case KRetry => value in {"yes", "no", "ignore"}
    case KProtocol => value in {"TCP", "UDP"}
    case KKeepalive => Strtol(value) >= 0
    case _ => true
  }

  /** What an admitted value stores in the key's field. */
  function Assigned(k: Key, value: string): FieldVal
  {
    match k
    case KDirection => DirVal(if value == "input" then DirInput else DirOutput)
    case KType => TypeVal(if value == "socket" then TSocket else if value == "file" then TFile else TStd)
    case KRetry => RetryVal(if value == "yes" then Yes else if value == "no" then No else Ignore)
    case KName => TextVal(Some(value))
    case KPort => TextVal(Some(value))
    case KProtocol => IntVal(if value == "TCP" then IpProtoTcp else IpProtoUdp)
    case KKeepalive => IntVal(Strtol(value))
    case KUnknown => NoField
  }

  /** Result of endpt_config_set_item: the return code and the record afterwards. */
  datatype SetResult = SetResult(code: int, cfg: EndptCfg)

  /**
   * endpt_config_set_item: a known key with an admitted value sets that key's
   * field; a rejected value returns -1 and leaves the record; an unknown key
   * returns 0 and leaves it too. The exit status and the test flag are never
   * touched, and no value sets retry to KILL.
   */
  function SetItem(c: EndptCfg, key: string, value: string): (r: SetResult)
    ensures r.code == 0 || r.code == -1
    ensures r.code == -1 ==> r.cfg == c
    ensures KeyOf(key) == KUnknown ==> r == SetResult(0, c)
    ensures r.cfg.exitStatus == c.exitStatus && r.cfg.testOnly == c.testOnly
    ensures r.cfg.retry == Kill ==> c.retry == Kill
  {
    match KeyOf(key)
    case KDirection =>
      if value == "input" then SetResult(0, c.(dir := DirInput))
      else if value == "output" then SetResult(0, c.(dir := DirOutput))
      else SetResult(-1, c)
    case KType =>
      if value == "socket" then SetResult(0, c.(kind := TSocket))
      else if value == "file" then SetResult(0, c.(kind := TFile))
      else if value == "std" then SetResult(0, c.(kind := TStd))
      else SetResult(-1, c)
    case KRetry =>
      if value == "yes" then SetResult(0, c.(retry := Yes))
      else if value == "no" then SetResult(0, c.(retry := No))
      else if value == "ignore" then SetResult(0, c.(retry := Ignore))
      else SetResult(-1, c)
    case KName => SetResult(0, c.(name := Some(value)))
    case KPort => SetResult(0, c.(port := Some(value)))
    case KProtocol =>
      if value == "TCP" then SetResult(0, c.(protocol := IpProtoTcp))
      else if value == "UDP" then SetResult(0, c.(protocol := IpProtoUdp))
      else SetResult(-1, c)
    case KKeepalive =>
      var keepalive := Strtol(value);
      if keepalive < 0 then SetResult(-1, c) else SetResult(0, c.(keepalive := keepalive))
    case KUnknown => SetResult(0, c)
  }

  /** No key touches the field of another key. */
  lemma SetItemOtherFields(c: EndptCfg, key: string, value: string)
    ensures forall k :: k != KeyOf(key) ==> Field(SetItem(c, key, value).cfg, k) == Field(c, k)
  {
  }

  /** The return code is 0 exactly for admitted values, and then the key's field holds the value. */
  lemma SetItemAccepts(c: EndptCfg, key: string, value: string)
    ensures SetItem(c, key, value).code == 0 <==> Accepts(KeyOf(key), value)
    ensures Accepts(KeyOf(key), value) ==> Field(SetItem(c, key, value).cfg, KeyOf(key)) == Assigned(KeyOf(key), value)
  {
  }

  /** Two pairs for the same key: the later one decides, whatever the earlier one was. */
  lemma SetItemLastWins(c: EndptCfg, key: string, v1: string, v2: string)
    requires Accepts(KeyOf(key), v2)
    ensures SetItem(SetItem(c, key, v1).cfg, key, v2).cfg == SetItem(c, key, v2).cfg
  {
    var c1 := SetItem(c, key, v1).cfg;
    match KeyOf(key)
    case KDirection => assert c1 == c.(dir := c1.dir);
    case KType => assert c1 == c.(kind := c1.kind);
    case KRetry => assert c1 == c.(retry := c1.retry);
    case KName => assert c1 == c.(name := c1.name);
    case KPort => assert c1 == c.(port := c1.port);
    case KProtocol => assert c1 == c.(protocol := c1.protocol);
    case KKeepalive => assert c1 == c.(keepalive := c1.keepalive);
    case KUnknown =>
  }

  /** A list of key/value pairs, applied in order; None at the first rejected value. */
  function ApplyPairs(c: EndptCfg, pairs: seq<(string, string)>): Option<EndptCfg>
  {
    if pairs == [] then Some(c)
    else
      match ApplyPairs(c, pairs[..|pairs| - 1])
      case None => None
      case Some(c') =>
        var r := SetItem(c', pairs[|pairs| - 1].0, pairs[|pairs| - 1].1);
        if r.code == -1 then None else Some(r.cfg)
  }

  /** The value of the last pair in the list whose key string is the key k. */
  function LastValue(pairs: seq<(string, string)>, k: Key): Option<string>
  {
    if pairs == [] then None
    else if KeyOf(pairs[|pairs| - 1].0) == k then Some(pairs[|pairs| - 1].1)
    else LastValue(pairs[..|pairs| - 1], k)
  }

  /** A list of pairs that applies has every value admitted for its key. */
  lemma {:induction false} ApplyPairsAdmitted(c: EndptCfg, pairs: seq<(string, string)>)
    requires ApplyPairs(c, pairs).Some?
    ensures forall i :: 0 <= i < |pairs| ==> Accepts(KeyOf(pairs[i].0), pairs[i].1)
  {
    if pairs != [] {
      var n := |pairs| - 1;
      var init := pairs[..n];
      var c' := ApplyPairs(c, init).value;
      ApplyPairsAdmitted(c, init);
      SetItemAccepts(c', pairs[n].0, pairs[n].1);
      forall i | 0 <= i < |pairs|
        ensures Accepts(KeyOf(pairs[i].0), pairs[i].1)
      {
        if i < n {
          assert init[i] == pairs[i];
        }
      }
    }
  }

  /** A list of pairs whose every value is admitted for its key applies. */
  lemma {:induction false} AdmittedApplies(c: EndptCfg, pairs: seq<(string, string)>)
    requires forall i :: 0 <= i < |pairs| ==> Accepts(KeyOf(pairs[i].0), pairs[i].1)
    ensures ApplyPairs(c, pairs).Some?
  {
    if pairs != [] {
      var n := |pairs| - 1;
      var init := pairs[..n];
      assert forall i :: 0 <= i < n ==> init[i] == pairs[i];
      AdmittedApplies(c, init);
      SetItemAccepts(ApplyPairs(c, init).value, pairs[n].0, pairs[n].1);
    }
  }

  /** A node's pairs are all applied exactly when every value is admitted for its key. */
  lemma ApplyPairsSucceeds(c: EndptCfg, pairs: seq<(string, string)>)
    ensures ApplyPairs(c, pairs).Some? <==> forall i :: 0 <= i < |pairs| ==> Accepts(KeyOf(pairs[i].0), pairs[i].1)
  {
    if ApplyPairs(c, pairs).Some? {
      ApplyPairsAdmitted(c, pairs);
    }
    if forall i :: 0 <= i < |pairs| ==> Accepts(KeyOf(pairs[i].0), pairs[i].1) {
      AdmittedApplies(c, pairs);
    }
  }

  /** Later pairs overwrite earlier ones: each known key's field comes from its last pair. */
  lemma {:induction false} ApplyPairsLastWins(c: EndptCfg, pairs: seq<(string, string)>, k: Key)
    requires k != KUnknown && ApplyPairs(c, pairs).Some?
    ensures Field(ApplyPairs(c, pairs).value, k) ==
      match LastValue(pairs, k)
      case None => Field(c, k)
      case Some(v) => Assigned(k, v)
  {
    if pairs != [] {
      var init := pairs[..|pairs| - 1];
      var (key, v) := pairs[|pairs| - 1];
      ApplyPairsLastWins(c, init, k);
      SetItemAccepts(ApplyPairs(c, init).value, key, v);
      SetItemOtherFields(ApplyPairs(c, init).value, key, v);
    }
  }

  /**
   * What parsing can and cannot leave in a record that started from the defaults:
   * never retry KILL, keepalive never negative, protocol undefined, TCP or UDP,
   * and the exit status still -255.
   */
  lemma {:induction false} ApplyPairsKeepsRanges(pairs: seq<(string, string)>)
    requires ApplyPairs(InitEndpt(), pairs).Some?
    ensures var c := ApplyPairs(InitEndpt(), pairs).value;
      && c.retry != Kill && c.keepalive >= 0
      && c.protocol in {-1, IpProtoTcp, IpProtoUdp}
      && c.exitStatus == -255
  {
    if pairs != [] {
      ApplyPairsKeepsRanges(pairs[..|pairs| - 1]);
    }
  }

  // ---------------------------------------------------------------------------
  // The endpoint list and the input

  /** One node of the YAML sequence: a mapping of key/value pairs, or some other node. */
  datatype Node = Mapping(pairs: seq<(string, string)>) | OtherNode

  /** The record a node yields: its pairs applied to the defaults; nothing for a node that is not a mapping. */
  function NodeRecord(node: Node): Option<EndptCfg>
  {
    match node
    case OtherNode => None
    case Mapping(pairs) => ApplyPairs(InitEndpt(), pairs)
  }

  /** The endpoint records of the nodes, or None if one is not a mapping or is rejected. */
  function ParseEndpoints(nodes: seq<Node>): (r: Option<seq<EndptCfg>>)
    ensures r.Some? ==> |r.value| == |nodes|
  {
    if nodes == [] then Some([])
    else
      match ParseEndpoints(nodes[..|nodes| - 1])
      case None => None
      case Some(cs) =>
        match NodeRecord(nodes[|nodes| - 1])
        case None => None
        case Some(c) => Some(cs + [c])
  }

  /**
   * The list parses exactly when every node is a mapping whose pairs are all
   * admitted, and then record i is node i's pairs applied to the defaults.
   */
  lemma {:induction false} ParseEndpointsSucceeds(nodes: seq<Node>)
    ensures ParseEndpoints(nodes).Some? <==> forall i :: 0 <= i < |nodes| ==> NodeRecord(nodes[i]).Some?
    ensures ParseEndpoints(nodes).Some? ==> forall i :: 0 <= i < |nodes| ==>
      NodeRecord(nodes[i]) == Some(ParseEndpoints(nodes).value[i])
  {
    if nodes != [] {
      var n := |nodes| - 1;
      var init := nodes[..n];
      ParseEndpointsSucceeds(init);
      assert forall i :: 0 <= i < n ==> init[i] == nodes[i];
      var last := NodeRecord(nodes[n]);
      if ParseEndpoints(init).Some? && last.Some? {
        var cs := ParseEndpoints(init).value;
        var all := cs + [last.value];
        assert ParseEndpoints(nodes) == Some(all);
        forall i | 0 <= i < |nodes|
          ensures NodeRecord(nodes[i]) == Some(all[i])
        {
          if i < n {
            assert init[i] == nodes[i] && all[i] == cs[i];
          }
        }
      } else {
        assert ParseEndpoints(nodes).None?;
      }
    }
  }

  /** get_read_endpt as a search: the index of the first record with direction input. */
  function FirstInput(cs: seq<EndptCfg>): (r: Option<nat>)
    ensures r.Some? ==> r.value < |cs| && cs[r.value].dir == DirInput
    ensures r.Some? ==> forall j :: 0 <= j < r.value ==> cs[j].dir != DirInput
    ensures r.None? ==> forall j :: 0 <= j < |cs| ==> cs[j].dir != DirInput
  {
    if cs == [] then None
    else if cs[0].dir == DirInput then Some(0)
    else match FirstInput(cs[1..])
      case None => None
      case Some(k) => Some(k + 1)
  }

  /** The first input is unique: an input with no input before it is the one FirstInput finds. */
  lemma FirstInputIsFirst(cs: seq<EndptCfg>, k: nat)
    requires k < |cs| && cs[k].dir == DirInput
    requires forall j :: 0 <= j < k ==> cs[j].dir != DirInput
    ensures FirstInput(cs) == Some(k)
  {
    var r := FirstInput(cs);
    assert r.Some?;
    assert !(r.value < k) && !(k < r.value);
  }

  /** The configuration parse_config_file produces: the input and the outputs. */
  datatype Parsed = Parsed(input: EndptCfg, outs: seq<EndptCfg>)

  /** The input taken out of the endpoint list: the first record with direction input, and the rest. */
  function SplitInput(cs: seq<EndptCfg>): Option<Parsed>
  {
    match FirstInput(cs)
    case None => None
    case Some(k) => Some(Parsed(cs[k], cs[..k] + cs[k + 1..]))
  }

  /** The tail of parse_config_file: the endpoint list, then the input taken out of it. */
  function ParseConfig(nodes: seq<Node>): Option<Parsed>
  {
    match ParseEndpoints(nodes)
    case None => None
    case Some(cs) => SplitInput(cs)
  }

  /**
   * Taking the input out: the input is the first record with direction input,
   * and the outputs are all the other records, in their original order: one
   * fewer, and nothing lost or duplicated.
   */
  lemma SplitInputShape(cs: seq<EndptCfg>)
    requires SplitInput(cs).Some?
    ensures var p := SplitInput(cs).value;
      && p.input.dir == DirInput
      && |p.outs| == |cs| - 1
      && multiset(p.outs) + multiset{p.input} == multiset(cs)
      && exists k :: 0 <= k < |cs| &&
           p.input == cs[k] &&
           (forall j :: 0 <= j < k ==> p.outs[j] == cs[j] && p.outs[j].dir != DirInput) &&
           (forall j :: k <= j < |p.outs| ==> p.outs[j] == cs[j + 1])
  {
    var p := SplitInput(cs).value;
    var k := FirstInput(cs).value;
    var before, after := cs[..k], cs[k + 1..];
    assert p.outs == before + after;
    assert cs == before + [cs[k]] + after;
    assert multiset(cs) == multiset(before) + multiset{cs[k]} + multiset(after);
    forall j | 0 <= j < k
      ensures p.outs[j] == cs[j] && p.outs[j].dir != DirInput
    {
      assert p.outs[j] == before[j];
    }
    forall j | k <= j < |p.outs|
      ensures p.outs[j] == cs[j + 1]
    {
      assert p.outs[j] == after[j - k];
    }
  }

  /** After a successful parse, the input and outputs are the parsed endpoint list split as above. */
  lemma ParseConfigSplitsInput(nodes: seq<Node>)
    requires ParseConfig(nodes).Some?
    ensures ParseEndpoints(nodes).Some? && ParseConfig(nodes) == SplitInput(ParseEndpoints(nodes).value)
    ensures |ParseConfig(nodes).value.outs| == |nodes| - 1
    ensures ParseConfig(nodes).value.input.dir == DirInput
  {
    SplitInputShape(ParseEndpoints(nodes).value);
  }

  /** A parse fails without an input endpoint. */
  lemma ParseConfigNeedsInput(nodes: seq<Node>)
    requires ParseEndpoints(nodes).Some?
    requires forall i :: 0 <= i < |nodes| ==> ParseEndpoints(nodes).value[i].dir != DirInput
    ensures ParseConfig(nodes).None?
  {
  }

  // ---------------------------------------------------------------------------
  // check_endpt / check_config

  /** check_endpt: a defined direction and type; a name for files; a full address for sockets. */
  predicate CheckEndpt(c: EndptCfg)
  {
    && c.dir != DirInval
    && match c.kind
       case TInval => false
       case TFile => c.name.Some?
       case TSocket => c.name.Some? && c.port.Some? && c.protocol != -1 && c.keepalive != -1
       case TStd => true
  }

  /** What check_config accepts: few enough outputs, a good input, and only good outputs. */
  predicate ConfigOk(input: EndptCfg, outs: seq<EndptCfg>)
  {
    && |outs| <= MaxOutputs
    && CheckEndpt(input)
    && forall i :: 0 <= i < |outs| ==> outs[i].dir == DirOutput && CheckEndpt(outs[i])
  }

  /** A record nothing was set on is rejected by the validator. */
  lemma InitEndptRejected()
    ensures !CheckEndpt(InitEndpt())
    ensures InitEndpt().retry == No && InitEndpt().exitStatus == -255
  {
  }

  /**
   * For a record parsed from the defaults, the validator's keepalive test never
   * fails: a socket passes exactly when its direction is defined and it has a
   * name, a port and a protocol.
   */
  lemma ParsedKeepaliveNeverRejected(pairs: seq<(string, string)>)
    requires ApplyPairs(InitEndpt(), pairs).Some?
    ensures var c := ApplyPairs(InitEndpt(), pairs).value;
      c.kind == TSocket ==> (CheckEndpt(c) <==> c.dir != DirInval && c.name.Some? && c.port.Some? && c.protocol != -1)
  {
    ApplyPairsKeepsRanges(pairs);
  }

  /** A configuration with two inputs parses, but the validator rejects it. */
  lemma SecondInputRejected(nodes: seq<Node>, i: nat, j: nat)
    requires ParseEndpoints(nodes).Some?
    requires i < j < |nodes|
    requires ParseEndpoints(nodes).value[i].dir == DirInput && ParseEndpoints(nodes).value[j].dir == DirInput
    ensures ParseConfig(nodes).Some? && !ConfigOk(ParseConfig(nodes).value.input, ParseConfig(nodes).value.outs)
  {
    var cs := ParseEndpoints(nodes).value;
    SplitInputRejectsSecond(cs, i, j);
    assert ParseConfig(nodes) == SplitInput(cs);
  }

  /** A list with two inputs splits, but the outputs it leaves hold an input. */
  lemma SplitInputRejectsSecond(cs: seq<EndptCfg>, i: nat, j: nat)
    requires i < j < |cs| && cs[i].dir == DirInput && cs[j].dir == DirInput
    ensures SplitInput(cs).Some? && !ConfigOk(SplitInput(cs).value.input, SplitInput(cs).value.outs)
  {
    var k := FirstInput(cs).value;
    assert k <= i;
    var outs := cs[..k] + cs[k + 1..];
    assert outs[j - 1] == cs[j];
  }

  /**
   * The inner loop of parse_config_file for one mapping node: a fresh record given
   * each pair in turn with endpt_config_set_item, stopping at the first rejected one.
   */
  method ParseNode(pairs: seq<(string, string)>) returns (ok: bool, ep: EndptCfg)
    ensures ok <==> ApplyPairs(InitEndpt(), pairs).Some?
    ensures ok ==> ApplyPairs(InitEndpt(), pairs) == Some(ep)
  {
    ep := InitEndpt();
    for j := 0 to |pairs|
      invariant ApplyPairs(InitEndpt(), pairs[..j]) == Some(ep)
    {
      assert pairs[..j + 1][..j] == pairs[..j];
      var res := SetItem(ep, pairs[j].0, pairs[j].1);
      if res.code == -1 {
        SetItemAccepts(ep, pairs[j].0, pairs[j].1);
        ApplyPairsSucceeds(InitEndpt(), pairs);
        ApplyPairsSucceeds(InitEndpt(), pairs[..j]);
        return false, ep;
      }
      ep := res.cfg;
    }
    assert pairs[..|pairs|] == pairs;
    ok := true;
  }

  /** struct io_cfg: the outputs array, how many of it are in use, and the input. */
  class IoConfig {
    var nOuts: int
    var outs: array<EndptCfg>
    var input: EndptCfg

    constructor ()
      ensures nOuts == 0 && outs.Length == 0
    {
      nOuts := 0;
      outs := new EndptCfg[0];
      input := InitEndpt();
    }

    /**
     * get_read_endpt: the index of the first of the nOuts records whose direction is
     * input, or -1 if there is none.
     */
    method GetReadEndpt() returns (idx: int)
      requires 0 <= nOuts <= outs.Length
      ensures -1 <= idx < nOuts
      ensures idx == -1 <==> forall j :: 0 <= j < nOuts ==> outs[j].dir != DirInput
      ensures idx >= 0 ==> outs[idx].dir == DirInput && forall j :: 0 <= j < idx ==> outs[j].dir != DirInput
    {
      for i := 0 to nOuts
        invariant forall j :: 0 <= j < i ==> outs[j].dir != DirInput
      {
        if outs[i].dir == DirInput {
          return i;
        }
      }
      return -1;
    }

    /** The shift of parse_config_file: every record after idx moves down one place. */
    method ShiftDown(idx: int)
      requires 0 <= idx < nOuts <= outs.Length
      modifies outs
      ensures outs[..nOuts - 1] == old(outs[..idx]) + old(outs[idx + 1..nOuts])
      ensures outs[nOuts - 1..] == old(outs[nOuts - 1..])
    {
      for i := 0 to nOuts - 1
        invariant forall j :: 0 <= j < i && j < idx ==> outs[j] == old(outs[j])
        invariant forall j :: 0 <= j < i && j >= idx ==> outs[j] == old(outs[j + 1])
        invariant forall j :: i <= j < outs.Length ==> outs[j] == old(outs[j])
      {
        if i >= idx {
          outs[i] := outs[i + 1];
        }
      }
    }

    /**
     * The part of parse_config_file after the YAML document is loaded: one record
     * per node, each started from the defaults and given its pairs in order; then
     * the first input is copied out and removed from the outputs.
     */
    method Parse(nodes: seq<Node>) returns (r: int)
      modifies this
      ensures r == 0 || r == -1
      ensures r == 0 <==> ParseConfig(nodes).Some?
      ensures r == 0 ==> nOuts == |ParseConfig(nodes).value.outs| <= outs.Length
      ensures r == 0 ==> input == ParseConfig(nodes).value.input
      ensures r == 0 ==> outs[..nOuts] == ParseConfig(nodes).value.outs
    {
      var ok := ReadEndpoints(nodes);
      if !ok {
        return -1;
      }
      ghost var cs := ParseEndpoints(nodes).value;
      assert outs[..nOuts] == cs;
      assert ParseConfig(nodes) == SplitInput(cs);
      r := ExtractInput();
    }

    /** The loop of parse_config_file over the nodes: one record per mapping node, -1 at the first bad node. */
    method ReadEndpoints(nodes: seq<Node>) returns (ok: bool)
      modifies this
      ensures ok <==> ParseEndpoints(nodes).Some?
      ensures ok ==> fresh(outs) && nOuts == |nodes| == outs.Length && outs[..] == ParseEndpoints(nodes).value
    {
      nOuts := |nodes|;
      outs := new EndptCfg[|nodes|](_ => InitEndpt());
      for i := 0 to |nodes|
        invariant nOuts == |nodes| == outs.Length && fresh(outs)
        invariant ParseEndpoints(nodes[..i]) == Some(outs[..i])
        modifies outs
      {
        assert nodes[..i + 1][..i] == nodes[..i];
        if nodes[i].OtherNode? {
          ParseEndpointsSucceeds(nodes);
          return false;
        }
        var ok, ep := ParseNode(nodes[i].pairs);
        if !ok {
          assert NodeRecord(nodes[i]).None?;
          ParseEndpointsSucceeds(nodes);
          return false;
        }
        outs[i] := ep;
        assert outs[..i + 1] == outs[..i] + [ep];
      }
      assert nodes[..|nodes|] == nodes;
      assert outs[..|nodes|] == outs[..];
      ok := true;
    }

    /**
     * check_config: no more than MAX_OUTPUTS outputs, a good input, then each
     * output in turn must have direction output and pass check_endpt.
     */
    method CheckConfig() returns (ok: bool)
      requires 0 <= nOuts <= outs.Length
      ensures ok <==> ConfigOk(input, outs[..nOuts])
    {
      if nOuts > MaxOutputs {
        return false;
      }
      if !CheckEndpt(input) {
        return false;
      }
      for i := 0 to nOuts
        invariant forall j :: 0 <= j < i ==> outs[j].dir == DirOutput && CheckEndpt(outs[j])
      {
        if outs[i].dir != DirOutput {
          return false;
        }
        if !CheckEndpt(outs[i]) {
          return false;
        }
      }
      return true;
    }

    /** get_read_endpt, the copy of the input and the shift that closes the gap. */
    method ExtractInput() returns (r: int)
      requires 0 <= nOuts <= outs.Length
      modifies this, outs
      ensures r == 0 || r == -1
      ensures r == 0 <==> SplitInput(old(outs[..nOuts])).Some?
      ensures r == 0 ==> outs == old(outs) && nOuts == old(nOuts) - 1
      ensures r == 0 ==> input == SplitInput(old(outs[..nOuts])).value.input
      ensures r == 0 ==> outs[..nOuts] == SplitInput(old(outs[..nOuts])).value.outs
    {
      ghost var cs := outs[..nOuts];
      var idx := GetReadEndpt();
      if idx == -1 {
        assert FirstInput(cs).None?;
        return -1;
      }
      assert FirstInput(cs) == Some(idx) by {
        FirstInputIsFirst(cs, idx);
      }
      input := outs[idx];
      ShiftDown(idx);
      nOuts := nOuts - 1;
      r := 0;
    }
  }
}
