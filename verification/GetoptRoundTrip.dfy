// Argument lists written out and scanned again (lib/getopt.c).
module GetoptRoundTrip {
  import opened Words
  import opened GetoptScan

  // The ways to write an option, or an element that is none.  Long options are given
  // by any name that selects them.
  datatype Item =
    | Cluster(chars: string)
    | Attached(c: char, arg: string)
    | Separate(c: char, arg: string)
    | Alone(c: char)
    | Long(name: string, i: nat)
    | LongValue(name: string, i: nat, arg: string)
    | LongSeparate(name: string, i: nat, arg: string)
    | Operand(text: string)

  // Characters of an element that take no arguments, none of which starts the name of
  // a long option where one dash may introduce it
  predicate AllPlain(cfg: Config, elem: string, chars: string)
    requires |elem| >= 2
  {
    chars == "" || (TakesNone(cfg, chars[0]) && !ReadsLong(cfg, elem, chars) && AllPlain(cfg, elem, chars[1..]))
  }

  predicate Selects(cfg: Config, name: string, i: nat) {
    && cfg.longopts.Some? && name != "" && '=' !in name
    && LongMatch(cfg.longopts.value, name) == Found(i) && i < |cfg.longopts.value|
  }

  predicate Writable(cfg: Config, item: Item) {
    match item
    case Cluster(chars) => chars != "" && chars[0] != '-' && AllPlain(cfg, "-" + chars, chars)
    case Attached(c, arg) =>
      c != '-' && arg != "" && TakesArgument(cfg, c) && !ReadsLong(cfg, "-" + [c] + arg, [c] + arg)
    case Separate(c, arg) => c != '-' && NeedsArgument(cfg, c)
    case Alone(c) => c != '-' && TakesArgument(cfg, c) && !NeedsArgument(cfg, c) && !ReadsLong(cfg, "-" + [c], [c])
    case Long(name, i) => Selects(cfg, name, i) && cfg.longopts.value[i].hasArg != RequiredArgument
    case LongValue(name, i, arg) => Selects(cfg, name, i) && cfg.longopts.value[i].hasArg != NoArgument
    case LongSeparate(name, i, arg) => Selects(cfg, name, i) && cfg.longopts.value[i].hasArg == RequiredArgument
    case Operand(text) => IsNonOption(text)
  }

  function Write(item: Item): seq<string> {
    match item
    case Cluster(chars) => ["-" + chars]
    case Attached(c, arg) => ["-" + [c] + arg]
    case Separate(c, arg) => ["-" + [c], arg]
    case Alone(c) => ["-" + [c]]
    case Long(name, i) => ["--" + name]
    case LongValue(name, i, arg) => ["--" + name + "=" + arg]
    case LongSeparate(name, i, arg) => ["--" + name, arg]
    case Operand(text) => [text]
  }

  function PlainEvents(chars: string): seq<Event> {
    if chars == "" then [] else [Event(chars[0] as int, None, None, None, None)] + PlainEvents(chars[1..])
  }

  // What the caller is to see of a long option: its value, or 0 and the value stored
  function LongEvent(o: LongOption, i: nat, optarg: Option<string>): Event {
    if o.flag then Event(0, optarg, None, Some(i), Some(o.val)) else Event(o.val, optarg, None, Some(i), None)
  }

  // What the caller is to see of an item
  function Reported(cfg: Config, item: Item): seq<Event>
    requires Writable(cfg, item)
  {
    match item
    case Cluster(chars) => PlainEvents(chars)
    case Attached(c, arg) => [Event(c as int, Some(arg), None, None, None)]
    case Separate(c, arg) => [Event(c as int, Some(arg), None, None, None)]
    case Alone(c) => [Event(c as int, None, None, None, None)]
    case Long(name, i) => [LongEvent(cfg.longopts.value[i], i, None)]
    case LongValue(name, i, arg) => [LongEvent(cfg.longopts.value[i], i, Some(arg))]
    case LongSeparate(name, i, arg) => [LongEvent(cfg.longopts.value[i], i, Some(arg))]
    case Operand(text) => []
  }

  // In full: a letter returns itself; an option without a flag returns its value and
  // one with a flag stores it; and each tells its argument and its place in the list
  lemma ReportedIsSeen(cfg: Config, item: Item)
    requires Writable(cfg, item)
    ensures var events := Reported(cfg, item);
            match item
            case Cluster(chars) =>
              |events| == |chars| && forall k :: 0 <= k < |chars| ==>
                events[k] == Event(chars[k] as int, None, None, None, None)
            case Attached(c, arg) => events == [Event(c as int, Some(arg), None, None, None)]
            case Separate(c, arg) => events == [Event(c as int, Some(arg), None, None, None)]
            case Alone(c) => events == [Event(c as int, None, None, None, None)]
            case Long(_, i) =>
              var o := cfg.longopts.value[i];
              events == [if o.flag then Event(0, None, None, Some(i), Some(o.val))
                         else Event(o.val, None, None, Some(i), None)]
            case LongValue(_, i, arg) =>
              var o := cfg.longopts.value[i];
              events == [if o.flag then Event(0, Some(arg), None, Some(i), Some(o.val))
                         else Event(o.val, Some(arg), None, Some(i), None)]
            case LongSeparate(_, i, arg) =>
              var o := cfg.longopts.value[i];
              events == [if o.flag then Event(0, Some(arg), None, Some(i), Some(o.val))
                         else Event(o.val, Some(arg), None, Some(i), None)]
            case Operand(_) => events == []
  {
    if item.Cluster? {
      ClusterIsSeen(item.chars);
    }
  }

  lemma {:induction false} ClusterIsSeen(chars: string)
    ensures |PlainEvents(chars)| == |chars|
    ensures forall k :: 0 <= k < |chars| ==> PlainEvents(chars)[k] == Event(chars[k] as int, None, None, None, None)
  {
    if chars != "" {
      ClusterIsSeen(chars[1..]);
    }
  }

  predicate AllWritable(cfg: Config, items: seq<Item>) {
    items == [] || (Writable(cfg, items[0]) && AllWritable(cfg, items[1..]))
  }

  function WriteAll(items: seq<Item>): seq<string> {
    if items == [] then [] else Write(items[0]) + WriteAll(items[1..])
  }

  // Options first, then the others
  function Expected(cfg: Config, items: seq<Item>): Outcome
    requires AllWritable(cfg, items)
  {
    if items == [] then Outcome([], [], [], [])
    else
      var r := Expected(cfg, items[1..]);
      if items[0].Operand? then Outcome(r.events, r.opts, Write(items[0]) + r.nons, [])
      else Outcome(Reported(cfg, items[0]) + r.events, Write(items[0]) + r.opts, r.nons, [])
  }

  // ---------------------------------------------------------------

  lemma {:induction false} UpToEqStops(name: string, tail: string)
    requires '=' !in name && (tail == "" || tail[0] == '=')
    ensures UpToEq(name + tail) == name
  {
    if name == "" {
      assert name + tail == tail;
    } else {
      UpToEqStops(name[1..], tail);
      UpToEqStep(name[0], name[1..], tail);
      assert [name[0]] + name[1..] == name;
    }
  }

  lemma UpToEqStep(c: char, name: string, tail: string)
    requires c != '=' && UpToEq(name + tail) == name
    ensures UpToEq([c] + name + tail) == [c] + name
  {
    assert ([c] + name + tail)[1..] == name + tail;
  }

  lemma DecodesAttached(cfg: Config, c: char, arg: string, following: seq<string>)
    requires WNeedsLongopts(cfg) && arg != "" && TakesArgument(cfg, c)
    ensures DecodeShort(cfg, [c] + arg, following) == Decoded(Plain(c as int, Some(arg)), "", 1)
  {
    assert ([c] + arg)[1..] == arg;
  }

  lemma DecodesSeparate(cfg: Config, c: char, arg: string, following: seq<string>)
    requires WNeedsLongopts(cfg) && NeedsArgument(cfg, c)
    ensures DecodeShort(cfg, [c], [arg] + following) == Decoded(Plain(c as int, Some(arg)), "", 2)
  {
    assert [c][1..] == "";
  }

  lemma DecodesAlone(cfg: Config, c: char, following: seq<string>)
    requires WNeedsLongopts(cfg) && TakesArgument(cfg, c) && !NeedsArgument(cfg, c)
    ensures DecodeShort(cfg, [c], following) == Decoded(Plain(c as int, None), "", 1)
  {
    assert [c][1..] == "";
  }

  lemma DecodesPlain(cfg: Config, next: string, following: seq<string>)
    requires WNeedsLongopts(cfg) && next != "" && TakesNone(cfg, next[0])
    ensures DecodeShort(cfg, next, following)
            == Decoded(Plain(next[0] as int, None), next[1..], if |next| == 1 then 1 else 0)
  {
  }

  // An item that is one element with one event
  lemma ScanOne(rd: Reader, elem: string, next: string, tail: seq<string>, event: Event)
    requires Shrinks(rd) && MidElement([elem], next) && (next == "" ==> !IsNonOption(elem) && elem != "--")
    requires rd.decode(elem, if next == "" then Lead(rd.longs, elem) else next, tail) == Decoded(event, "", 1)
    ensures Scan(Permute, rd, [elem] + tail, next) == Prefixed([event], [elem], [], Scan(Permute, rd, tail, ""))
  {
    var rest := [elem] + tail;
    assert rest[1..] == tail && rest[..1] == [elem];
  }

  lemma ScanTwo(rd: Reader, elem: string, arg: string, tail: seq<string>, event: Event)
    requires Shrinks(rd) && !IsNonOption(elem) && elem != "--"
    requires rd.decode(elem, Lead(rd.longs, elem), [arg] + tail) == Decoded(event, "", 2)
    ensures Scan(Permute, rd, [elem, arg] + tail, "") == Prefixed([event], [elem, arg], [], Scan(Permute, rd, tail, ""))
  {
    var rest := [elem, arg] + tail;
    assert rest[1..] == [arg] + tail && rest[..2] == [elem, arg] && rest[2..] == tail;
  }

  // What is left of a cluster, 'next', or all of it if next is ""
  lemma {:induction false} ScanCluster(cfg: Config, rd: Reader, elem: string, chars: string, next: string,
                                       tail: seq<string>)
    requires Realizes(cfg, rd) && |elem| >= 2 && elem[0] == '-' && elem[1] != '-'
    requires chars != "" && AllPlain(cfg, elem, chars) && |chars| < |elem|
    requires next == chars || (next == "" && Lead(rd.longs, elem) == chars)
    ensures Scan(Permute, rd, [elem] + tail, next) == Prefixed(PlainEvents(chars), [elem], [],
                                                               Scan(Permute, rd, tail, ""))
    decreases |chars|
  {
    var rest := [elem] + tail;
    assert rest[1..] == tail && rest[..1] == [elem] && rest[..0] == [] && rest[0..] == rest;
    DecodesPlain(cfg, chars, tail);
    assert Decode(cfg, elem, chars, tail) == DecodeShort(cfg, chars, tail);
    var event := Plain(chars[0] as int, None);
    if |chars| == 1 {
      assert chars[1..] == "";
      assert PlainEvents(chars) == [event];
      ScanOne(rd, elem, next, tail, event);
    } else {
      ScanCluster(cfg, rd, elem, chars[1..], chars[1..], tail);
      assert Next(Permute, rd, rest, next) == Emit(event, [], [], rest, chars[1..]);
      PrefixedTwice([event], PlainEvents(chars[1..]), [elem], Scan(Permute, rd, tail, ""));
    }
  }

  lemma DecodesLong(cfg: Config, name: string, i: nat, value: string, following: seq<string>)
    requires WNeedsLongopts(cfg) && Selects(cfg, name, i) && (value == "" || value[0] == '=')
    ensures Decode(cfg, "--" + (name + value), name + value, following)
            == DecodeFound(cfg, cfg.longopts.value[i], i, None, value, following, 1, Some(cfg.longopts.value[i].val))
  {
    UpToEqStops(name, value);
    assert (name + value)[|name|..] == value;
  }

  lemma LeadOfLong(name: string, value: string)
    requires name != ""
    ensures var elem := "--" + (name + value);
            Lead(true, elem) == name + value && !IsNonOption(elem) && elem != "--"
  {
  }

  lemma ScanLong(cfg: Config, rd: Reader, name: string, i: nat, arg: Option<string>, tail: seq<string>)
    requires Realizes(cfg, rd) && Selects(cfg, name, i)
    requires cfg.longopts.value[i].hasArg != if arg.None? then RequiredArgument else NoArgument
    ensures var elem := "--" + (name + if arg.None? then "" else "=" + arg.value);
            Scan(Permute, rd, [elem] + tail, "")
            == Prefixed([LongEvent(cfg.longopts.value[i], i, arg)], [elem], [], Scan(Permute, rd, tail, ""))
  {
    hide DecodeFound, Decode, LongEvent, LongMatch;
    var value := if arg.None? then "" else "=" + arg.value;
    DecodesLong(cfg, name, i, value, tail);
    LeadOfLong(name, value);
    FoundIsSeen(cfg, cfg.longopts.value[i], i, arg, tail);
    ScanOne(rd, "--" + (name + value), "", tail, LongEvent(cfg.longopts.value[i], i, arg));
  }

  lemma FoundIsSeen(cfg: Config, o: LongOption, i: nat, arg: Option<string>, following: seq<string>)
    requires o.hasArg != if arg.None? then RequiredArgument else NoArgument
    ensures DecodeFound(cfg, o, i, None, if arg.None? then "" else "=" + arg.value, following, 1, Some(o.val))
            == Decoded(LongEvent(o, i, arg), "", 1)
  {
    assert arg.Some? ==> ("=" + arg.value)[1..] == arg.value;
  }

  lemma ScanLongSeparate(cfg: Config, rd: Reader, name: string, i: nat, arg: string, tail: seq<string>)
    requires Realizes(cfg, rd) && Selects(cfg, name, i) && cfg.longopts.value[i].hasArg == RequiredArgument
    ensures Scan(Permute, rd, ["--" + name, arg] + tail, "")
            == Prefixed([LongEvent(cfg.longopts.value[i], i, Some(arg))], ["--" + name, arg], [],
                        Scan(Permute, rd, tail, ""))
  {
    assert name + "" == name;
    DecodesLong(cfg, name, i, "", [arg] + tail);
    LeadOfLong(name, "");
    ScanTwo(rd, "--" + name, arg, tail, LongEvent(cfg.longopts.value[i], i, Some(arg)));
  }

  lemma ScanShort(cfg: Config, rd: Reader, item: Item, tail: seq<string>)
    requires Realizes(cfg, rd) && Writable(cfg, item)
    requires item.Cluster? || item.Attached? || item.Separate? || item.Alone?
    ensures Scan(Permute, rd, Write(item) + tail, "")
            == Prefixed(Reported(cfg, item), Write(item), [], Scan(Permute, rd, tail, ""))
  {
    match item
    case Cluster(chars) =>
      ScanCluster(cfg, rd, "-" + chars, chars, "", tail);
    case Attached(c, arg) =>
      var elem := "-" + [c] + arg;
      assert elem[1..] == [c] + arg;
      DecodesAttached(cfg, c, arg, tail);
      assert Decode(cfg, elem, [c] + arg, tail) == DecodeShort(cfg, [c] + arg, tail);
      ScanOne(rd, elem, "", tail, Plain(c as int, Some(arg)));
    case Separate(c, arg) =>
      var elem := "-" + [c];
      assert elem[1..] == [c];
      DecodesSeparate(cfg, c, arg, tail);
      assert Decode(cfg, elem, [c], [arg] + tail) == DecodeShort(cfg, [c], [arg] + tail);
      ScanTwo(rd, elem, arg, tail, Plain(c as int, Some(arg)));
    case Alone(c) =>
      var elem := "-" + [c];
      assert elem[1..] == [c];
      DecodesAlone(cfg, c, tail);
      assert Decode(cfg, elem, [c], tail) == DecodeShort(cfg, [c], tail);
      ScanOne(rd, elem, "", tail, Plain(c as int, None));
  }

  lemma ScanItem(cfg: Config, rd: Reader, item: Item, tail: seq<string>)
    requires Realizes(cfg, rd) && Writable(cfg, item)
    ensures Scan(Permute, rd, Write(item) + tail, "")
            == if item.Operand? then Prefixed([], [], Write(item), Scan(Permute, rd, tail, ""))
               else Prefixed(Reported(cfg, item), Write(item), [], Scan(Permute, rd, tail, ""))
  {
    match item
    case Operand(text) =>
      ScanOperand(rd, text, tail);
    case Long(name, i) =>
      assert "--" + (name + "") == "--" + name;
      ScanLong(cfg, rd, name, i, None, tail);
    case LongValue(name, i, arg) =>
      assert "--" + (name + ("=" + arg)) == "--" + name + "=" + arg;
      ScanLong(cfg, rd, name, i, Some(arg), tail);
    case LongSeparate(name, i, arg) =>
      ScanLongSeparate(cfg, rd, name, i, arg, tail);
    case _ =>
      ScanShort(cfg, rd, item, tail);
  }

  // Options written out in any of these ways, with other elements between them, are
  // scanned back as they were, and the other elements are left in order
  lemma {:induction false} WrittenIsScanned(cfg: Config, rd: Reader, items: seq<Item>)
    requires Realizes(cfg, rd) && AllWritable(cfg, items)
    ensures Scan(Permute, rd, WriteAll(items), "") == Some(Expected(cfg, items))
  {
    if items != [] {
      WrittenIsScanned(cfg, rd, items[1..]);
      ScanItem(cfg, rd, items[0], WriteAll(items[1..]));
      var r := Expected(cfg, items[1..]);
      if items[0].Operand? {
        PrefixOperand(Write(items[0]), r);
      } else {
        PrefixOption(Reported(cfg, items[0]), Write(items[0]), r);
      }
    }
  }

  lemma PrefixOperand(nons: seq<string>, r: Outcome)
    requires r.rest == []
    ensures Prefixed([], [], nons, Some(r)) == Some(Outcome(r.events, r.opts, nons + r.nons, []))
  {
    assert [] + r.events == r.events && [] + r.opts == r.opts;
  }

  lemma PrefixOption(events: seq<Event>, opts: seq<string>, r: Outcome)
    requires r.rest == []
    ensures Prefixed(events, opts, [], Some(r)) == Some(Outcome(events + r.events, opts + r.opts, r.nons, []))
  {
    assert [] + r.nons == r.nons;
  }
}
