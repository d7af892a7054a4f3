/** `PuppyLogHandler`, the swift-log back end: it merges the handler's
    metadata with a call's, renders the result as text sorted by key, and
    forwards the record to Puppy with the tag "swiftlog". */
module LogHandler {
  import opened Wrappers
  import opened Order

  /** `Logger.MetadataValue`; a `stringConvertible` value is held by the text
      of its `description`. */
  datatype MetadataValue =
    | Str(s: string)
    | Convertible(description: string)
    | Array(items: seq<MetadataValue>)
    | Dictionary(entries: map<string, MetadataValue>)

  /** `Logger.Metadata` */
  type Metadata = map<string, MetadataValue>

  // ------------------------------------------------------------------ merge

  /** `mergedMetadata`: the handler's metadata when the call has none;
      otherwise both, the call's value winning on a shared key. */
  function MergedMetadata(own: Metadata, call: Option<Metadata>): (r: Metadata)
    ensures call.None? ==> r == own
    ensures call.Some? ==> r.Keys == own.Keys + call.value.Keys
    ensures call.Some? ==> forall k :: k in r ==> r[k] == if k in call.value then call.value[k] else own[k]
  {
    if call.None? then own else own + call.value
  }

  /** Handler entries that the call overrides have no effect on the merge. */
  lemma OverriddenEntriesVanish(own: Metadata, call: Metadata)
    ensures MergedMetadata(own, Some(call)) == MergedMetadata(own - call.Keys, Some(call))
  {
    var a, b := MergedMetadata(own, Some(call)), MergedMetadata(own - call.Keys, Some(call));
    assert a.Keys == b.Keys;
  }

  /** Merging an empty call metadata, or the handler's own, gives the
      handler's metadata back. */
  lemma MergeNeutral(own: Metadata)
    ensures MergedMetadata(own, Some(map[])) == own
    ensures MergedMetadata(own, Some(own)) == own
  {
  }

  // ------------------------------------------------------------- rendering

  /** `joined(separator:)` */
  function Join(xs: seq<string>, sep: string): string {
    if xs == [] then "" else if |xs| == 1 then xs[0] else xs[0] + sep + Join(xs[1..], sep)
  }

  function Quoted(s: string): string {
    "\"" + s + "\""
  }

  /** `descriptionWithoutExcessQuotes`: strings in double quotes, arrays and
      dictionaries in brackets, their parts rendered the same way. */
  function Describe(v: MetadataValue): (r: string)
    ensures |r| >= 2
    ensures r[0] == '[' <==> v.Array? || v.Dictionary?
    ensures r[0] == '[' ==> r[|r| - 1] == ']'
    ensures r[0] != '[' ==> r[0] == '"' && r[|r| - 1] == '"'
    decreases v, 2
  {
    match v
    case Str(s) => Quoted(s)
    case Convertible(c) => Quoted(c)
    case Array(xs) => "[" + Join(ItemTexts(xs), ", ") + "]"
    case Dictionary(m) => "[" + SortedDescription(m) + "]"
  }

  /** Each element of an array rendered, in order. */
  function ItemTexts(xs: seq<MetadataValue>): (r: seq<string>)
    ensures |r| == |xs|
    decreases Array(xs), 0
  {
    seq(|xs|, i requires 0 <= i < |xs| => Describe(xs[i]))
  }

  /** Where the `i`th part starts in `Join(xs, sep)`: after each earlier
      part and the separator that follows it. */
  function Offset(xs: seq<string>, sep: string, i: nat): nat
    requires i <= |xs|
  {
    if i == 0 then 0 else Offset(xs, sep, i - 1) + |xs[i - 1]| + |sep|
  }

  /** Where the `i`th part ends in `Join(xs, sep)`. */
  function PartEnd(xs: seq<string>, sep: string, i: nat): nat
    requires i < |xs|
  {
    Offset(xs, sep, i) + |xs[i]|
  }

  lemma {:induction false} OffsetTail(xs: seq<string>, sep: string, i: nat)
    requires i < |xs|
    ensures Offset(xs, sep, i + 1) == |xs[0]| + |sep| + Offset(xs[1..], sep, i)
  {
    if i > 0 {
      OffsetTail(xs, sep, i - 1);
      assert xs[1..][i - 1] == xs[i];
    }
  }

  /** A join is its first part, the separator and the join of the rest. */
  lemma JoinCons(xs: seq<string>, sep: string)
    requires |xs| > 1
    ensures Join(xs, sep) == (xs[0] + sep) + Join(xs[1..], sep)
  {
  }

  lemma {:induction false} JoinLength(xs: seq<string>, sep: string)
    requires xs != []
    ensures |Join(xs, sep)| == PartEnd(xs, sep, |xs| - 1)
    decreases |xs|
  {
    if |xs| > 1 {
      JoinCons(xs, sep);
      JoinLength(xs[1..], sep);
      OffsetTail(xs, sep, |xs| - 2);
      assert xs[1..][|xs| - 2] == xs[|xs| - 1];
    }
  }

  lemma {:induction false} JoinPart(xs: seq<string>, sep: string, i: nat)
    requires i < |xs|
    ensures PartEnd(xs, sep, i) <= |Join(xs, sep)|
    ensures Join(xs, sep)[Offset(xs, sep, i)..PartEnd(xs, sep, i)] == xs[i]
    decreases i
  {
    if |xs| == 1 {
      assert Join(xs, sep) == xs[0];
    } else if i == 0 {
      JoinCons(xs, sep);
      HeadPart(xs[0], sep + Join(xs[1..], sep));
    } else {
      JoinPart(xs[1..], sep, i - 1);
      ShiftedJoinPart(xs, sep, i);
    }
  }

  /** The `i`th part of a join is the `i - 1`th part of the join of the
      tail, shifted by the first part and a separator. */
  lemma ShiftedJoinPart(xs: seq<string>, sep: string, i: nat)
    requires 0 < i < |xs|
    requires PartEnd(xs[1..], sep, i - 1) <= |Join(xs[1..], sep)|
    requires Join(xs[1..], sep)[Offset(xs[1..], sep, i - 1)..PartEnd(xs[1..], sep, i - 1)] == xs[1..][i - 1]
    ensures PartEnd(xs, sep, i) <= |Join(xs, sep)|
    ensures Join(xs, sep)[Offset(xs, sep, i)..PartEnd(xs, sep, i)] == xs[i]
  {
    var tail := xs[1..];
    JoinCons(xs, sep);
    OffsetTail(xs, sep, i - 1);
    assert tail[i - 1] == xs[i];
    var p, q, o := xs[0] + sep, Join(tail, sep), Offset(tail, sep, i - 1);
    ShiftedSlice(p, q, o, xs[i]);
    assert Offset(xs, sep, i) == |p| + o;
  }

  lemma {:induction false} JoinSeparator(xs: seq<string>, sep: string, i: nat)
    requires i + 1 < |xs|
    ensures PartEnd(xs, sep, i) + |sep| <= |Join(xs, sep)|
    ensures Join(xs, sep)[PartEnd(xs, sep, i)..PartEnd(xs, sep, i) + |sep|] == sep
    decreases i
  {
    JoinCons(xs, sep);
    if i == 0 {
      ShiftedSlice(xs[0], sep + Join(xs[1..], sep), 0, sep);
    } else {
      JoinSeparator(xs[1..], sep, i - 1);
      ShiftedJoinSeparator(xs, sep, i);
    }
  }

  /** The separator after the `i`th part of a join is the one after the
      `i - 1`th part of the join of the tail, shifted. */
  lemma ShiftedJoinSeparator(xs: seq<string>, sep: string, i: nat)
    requires 0 < i && i + 1 < |xs|
    requires PartEnd(xs[1..], sep, i - 1) + |sep| <= |Join(xs[1..], sep)|
    requires Join(xs[1..], sep)[PartEnd(xs[1..], sep, i - 1)..PartEnd(xs[1..], sep, i - 1) + |sep|] == sep
    ensures PartEnd(xs, sep, i) + |sep| <= |Join(xs, sep)|
    ensures Join(xs, sep)[PartEnd(xs, sep, i)..PartEnd(xs, sep, i) + |sep|] == sep
  {
    var tail := xs[1..];
    JoinCons(xs, sep);
    OffsetTail(xs, sep, i - 1);
    assert tail[i - 1] == xs[i];
    var p, q, e := xs[0] + sep, Join(tail, sep), PartEnd(tail, sep, i - 1);
    ShiftedSlice(p, q, e, sep);
    assert PartEnd(xs, sep, i) == |p| + e;
  }

  lemma HeadPart(p: string, q: string)
    ensures (p + q)[0..|p|] == p
  {
  }

  /** A slice of the right operand of a concatenation, seen in the whole. */
  lemma ShiftedSlice(p: string, q: string, o: nat, x: string)
    requires o + |x| <= |q| && q[o..o + |x|] == x
    ensures |p| + o + |x| <= |p + q| && (p + q)[|p| + o..|p| + o + |x|] == x
  {
    assert (p + q)[|p| + o..|p| + o + |x|] == q[o..o + |x|];
  }

  /** The layout of a join: the parts in order at their offsets, one
      separator between neighbours, and nothing after the last part. */
  lemma JoinLayout(xs: seq<string>, sep: string)
    ensures xs == [] ==> Join(xs, sep) == ""
    ensures xs != [] ==> |Join(xs, sep)| == PartEnd(xs, sep, |xs| - 1)
    ensures forall i :: 0 <= i < |xs| ==>
              PartEnd(xs, sep, i) <= |Join(xs, sep)| && Join(xs, sep)[Offset(xs, sep, i)..PartEnd(xs, sep, i)] == xs[i]
    ensures forall i :: 0 <= i < |xs| - 1 ==>
              && PartEnd(xs, sep, i) + |sep| <= |Join(xs, sep)|
              && Join(xs, sep)[PartEnd(xs, sep, i)..PartEnd(xs, sep, i) + |sep|] == sep
  {
    if xs != [] {
      JoinLength(xs, sep);
    }
    forall i | 0 <= i < |xs|
      ensures PartEnd(xs, sep, i) <= |Join(xs, sep)| && Join(xs, sep)[Offset(xs, sep, i)..PartEnd(xs, sep, i)] == xs[i]
    {
      JoinPart(xs, sep, i);
    }
    forall i | 0 <= i < |xs| - 1
      ensures PartEnd(xs, sep, i) + |sep| <= |Join(xs, sep)|
      ensures Join(xs, sep)[PartEnd(xs, sep, i)..PartEnd(xs, sep, i) + |sep|] == sep
    {
      JoinSeparator(xs, sep, i);
    }
  }

  /** An array prints as its elements' renderings in order, each at its
      offset after the opening bracket, with ", " between neighbours. */
  lemma DescribeArrayLayout(xs: seq<MetadataValue>)
    ensures var r, items := Describe(Array(xs)), ItemTexts(xs);
            && (forall i :: 0 <= i < |xs| ==> items[i] == Describe(xs[i]))
            && BracketedLayout(r, items)
  {
    BracketedJoin(ItemTexts(xs));
  }

  /** Two strings print as `["a", "b"]`. */
  lemma ArrayExample()
    ensures Describe(Array([Str("a"), Str("b")])) == "[\"a\", \"b\"]"
  {
    var xs := [Str("a"), Str("b")];
    assert Describe(xs[0]) == "\"a\"" && Describe(xs[1]) == "\"b\"";
    assert ItemTexts(xs) == ["\"a\"", "\"b\""];
    JoinTwo("\"a\"", "\"b\"", ", ");
  }

  /** An empty array inside an array prints as `[]`. */
  lemma NestedArrayExample()
    ensures Describe(Array([Array([]), Convertible("1")])) == "[[], \"1\"]"
  {
    var ys := [Array([]), Convertible("1")];
    assert ItemTexts([]) == [];
    assert Describe(ys[0]) == "[]" && Describe(ys[1]) == "\"1\"";
    assert ItemTexts(ys) == ["[]", "\"1\""];
    JoinTwo("[]", "\"1\"", ", ");
  }

  /** `r` is `items` joined by ", " between brackets, laid out part by part. */
  ghost predicate BracketedLayout(r: string, items: seq<string>) {
    && |r| >= 2 && r[0] == '[' && r[|r| - 1] == ']'
    && (items == [] ==> r == "[]")
    && (items != [] ==> |r| == 2 + PartEnd(items, ", ", |items| - 1))
    && BracketedParts(r, items)
    && BracketedSeparators(r, items)
  }

  /** Each part sits at its offset, one past the opening bracket. */
  ghost predicate BracketedParts(r: string, items: seq<string>) {
    forall i :: 0 <= i < |items| ==>
      1 + PartEnd(items, ", ", i) < |r| && r[1 + Offset(items, ", ", i)..1 + PartEnd(items, ", ", i)] == items[i]
  }

  /** ", " follows every part but the last. */
  ghost predicate BracketedSeparators(r: string, items: seq<string>) {
    forall i :: 0 <= i < |items| - 1 ==>
      1 + PartEnd(items, ", ", i) + 2 < |r| && r[1 + PartEnd(items, ", ", i)..1 + PartEnd(items, ", ", i) + 2] == ", "
  }

  lemma BracketedJoin(items: seq<string>)
    ensures BracketedLayout("[" + Join(items, ", ") + "]", items)
  {
    JoinLayout(items, ", ");
    BracketedJoinParts(items);
    BracketedJoinSeparators(items);
  }

  lemma BracketedJoinParts(items: seq<string>)
    ensures BracketedParts("[" + Join(items, ", ") + "]", items)
  {
    forall i | 0 <= i < |items|
      ensures 1 + PartEnd(items, ", ", i) < |"[" + Join(items, ", ") + "]"|
      ensures ("[" + Join(items, ", ") + "]")[1 + Offset(items, ", ", i)..1 + PartEnd(items, ", ", i)] == items[i]
    {
      BracketedPart(items, i);
    }
  }

  lemma BracketedPart(items: seq<string>, i: nat)
    requires i < |items|
    ensures 1 + PartEnd(items, ", ", i) < |"[" + Join(items, ", ") + "]"|
    ensures ("[" + Join(items, ", ") + "]")[1 + Offset(items, ", ", i)..1 + PartEnd(items, ", ", i)] == items[i]
  {
    JoinPart(items, ", ", i);
    Bracketed(Join(items, ", "), Offset(items, ", ", i), PartEnd(items, ", ", i), items[i]);
  }

  lemma BracketedJoinSeparators(items: seq<string>)
    ensures BracketedSeparators("[" + Join(items, ", ") + "]", items)
  {
    var j := Join(items, ", ");
    forall i | 0 <= i < |items| - 1
      ensures 1 + PartEnd(items, ", ", i) + 2 < |"[" + j + "]"|
      ensures ("[" + j + "]")[1 + PartEnd(items, ", ", i)..1 + PartEnd(items, ", ", i) + 2] == ", "
    {
      JoinSeparator(items, ", ", i);
      Bracketed(j, PartEnd(items, ", ", i), PartEnd(items, ", ", i) + 2, ", ");
    }
  }

  /** A slice of `j` seen in `j` between brackets. */
  lemma Bracketed(j: string, lo: nat, hi: nat, x: string)
    requires lo <= hi <= |j| && j[lo..hi] == x
    ensures 1 + hi < |"[" + j + "]"| && ("[" + j + "]")[1 + lo..1 + hi] == x
  {
    assert ("[" + j + "]")[1 + lo..1 + hi] == j[lo..hi];
  }

  /** The keys of `m` in ascending order. */
  function SortedKeys(m: Metadata): (keys: seq<string>)
    ensures |keys| == |m| && forall k :: k in keys <==> k in m
  {
    StrLeTotalOrder();
    SortedBy(m.Keys, StrLe)
  }

  /** Each entry of `m` as `key: value`, in ascending key order. */
  function EntryTexts(m: Metadata): (r: seq<string>)
    ensures |r| == |m|
    decreases Dictionary(m), 0
  {
    var keys := SortedKeys(m);
    seq(|keys|, i requires 0 <= i < |keys| => keys[i] + ": " + Describe(m[keys[i]]))
  }

  /** `sortedDescriptionWithoutQuotes`: the entries joined by ", ". */
  function SortedDescription(m: Metadata): string
    decreases Dictionary(m), 1
  {
    Join(EntryTexts(m), ", ")
  }

  /** The rendering lists every key once, in strictly ascending order, each
      followed by ": " and its value's rendering. */
  lemma SortedDescriptionEntries(m: Metadata)
    ensures var keys := SortedKeys(m);
            && (forall i, j :: 0 <= i < j < |keys| ==> StrLt(keys[i], keys[j]))
            && SortedDescription(m) == Join(EntryTexts(m), ", ")
            && forall i :: 0 <= i < |keys| ==> EntryTexts(m)[i] == keys[i] + ": " + Describe(m[keys[i]])
  {
    StrLeTotalOrder();
    SortedByAscending(m.Keys, StrLe);
  }

  /** A dictionary prints as its entries in strictly ascending key order,
      each `key: value` at its offset after the opening bracket, with ", "
      between neighbours. */
  lemma DescribeDictionaryLayout(m: Metadata)
    ensures var r, keys, entries := Describe(Dictionary(m)), SortedKeys(m), EntryTexts(m);
            && (forall i, j :: 0 <= i < j < |keys| ==> StrLt(keys[i], keys[j]))
            && (forall i :: 0 <= i < |keys| ==> entries[i] == keys[i] + ": " + Describe(m[keys[i]]))
            && BracketedLayout(r, entries)
  {
    SortedDescriptionEntries(m);
    BracketedJoin(EntryTexts(m));
  }

  /** One entry renders as `key: value`. */
  lemma SingleEntry(k: string, v: MetadataValue)
    ensures SortedDescription(map[k := v]) == k + ": " + Describe(v)
  {
    var m := map[k := v];
    StrLeTotalOrder();
    assert StrLe(k, k) by { LexReflexive(k); }
    SortedByUnique(m.Keys, StrLe, [k]);
    assert EntryTexts(m) == [k + ": " + Describe(v)];
  }

  /** Two entries render in key order, whichever way the map was built. */
  lemma TwoEntries(a: string, x: MetadataValue, b: string, y: MetadataValue)
    requires StrLt(a, b)
    ensures SortedDescription(map[b := y, a := x]) == a + ": " + Describe(x) + ", " + b + ": " + Describe(y)
  {
    TwoEntryTexts(a, x, b, y);
    JoinTwo(a + ": " + Describe(x), b + ": " + Describe(y), ", ");
  }

  lemma TwoEntryTexts(a: string, x: MetadataValue, b: string, y: MetadataValue)
    requires StrLt(a, b)
    ensures EntryTexts(map[b := y, a := x]) == [a + ": " + Describe(x), b + ": " + Describe(y)]
  {
    var m := map[b := y, a := x];
    assert m.Keys == {a, b};
    StrLeTotalOrder();
    TwoKeysSorted(a, b);
  }

  lemma JoinTwo(p: string, q: string, sep: string)
    ensures Join([p, q], sep) == p + sep + q
  {
    assert [p, q][1..] == [q];
  }

  lemma TwoKeysSorted(a: string, b: string)
    requires StrLt(a, b) && TotalOrder(StrLe)
    ensures SortedBy({a, b}, StrLe) == [a, b]
  {
    SortedByUnique({a, b}, StrLe, [a, b]);
  }

  /** Every string is its own lexicographic lower bound. */
  lemma {:induction false} LexReflexive(s: string)
    ensures StrLe(s, s)
    decreases |s|
  {
    if s != [] {
      LexReflexive(s[1..]);
    }
  }

  /** A string and a value rendered through `description` are printed
      alike: the rendering does not tell the two cases apart. */
  lemma StringCasesAlike(s: string)
    ensures Describe(Str(s)) == Describe(Convertible(s))
  {
  }

  /** A string's rendering is the string between two quotes. */
  lemma QuotesRoundTrip(s: string)
    ensures var r := Describe(Str(s)); r[1..|r| - 1] == s
  {
    var r := Describe(Str(s));
    assert r == ['"'] + s + ['"'];
  }

  // ----------------------------------------------------------------- levels

  /** `Logger.Level` */
  datatype Level = Trace | Debug | Info | Notice | Warning | Error | Critical

  /** Puppy's `LogLevel`, with the cases that `toPuppy` produces. */
  datatype LogLevel = PTrace | PDebug | PInfo | PNotice | PWarning | PError | PCritical

  /** `toPuppy`: each level to Puppy's level of the same name. */
  function ToPuppy(l: Level): LogLevel {
    match l
    case Trace => PTrace
    case Debug => PDebug
    case Info => PInfo
    case Notice => PNotice
    case Warning => PWarning
    case Error => PError
    case Critical => PCritical
  }

  /** Distinct levels stay distinct. */
  lemma ToPuppyInjective(a: Level, b: Level)
    requires ToPuppy(a) == ToPuppy(b)
    ensures a == b
  {
  }

  // -------------------------------------------------------------------- log

  /** The arguments of `puppy.logMessage`. */
  datatype Forwarded = Forwarded(level: LogLevel, message: string, tag: string, functionName: string, file: string,
                                 line: nat, swiftLogInfo: map<string, string>)

  /** `log(level:message:metadata:source:file:function:line:)` on a handler
      labelled `loggerLabel` with metadata `own`. */
  function LogCall(loggerLabel: string, own: Metadata, level: Level, message: string, call: Option<Metadata>,
                   source: string, file: string, functionName: string, line: nat): (r: Forwarded)
    ensures r.tag == "swiftlog" && r.level == ToPuppy(level) && r.message == message
    ensures r.functionName == functionName && r.file == file && r.line == line
    ensures r.swiftLogInfo.Keys == {"label", "source", "metadata"}
    ensures r.swiftLogInfo["label"] == loggerLabel && r.swiftLogInfo["source"] == source
    ensures r.swiftLogInfo["metadata"] == "[" + SortedDescription(MergedMetadata(own, call)) + "]"
  {
    var info := map["label" := loggerLabel, "source" := source, "metadata" := "[" + SortedDescription(MergedMetadata(own, call)) + "]"];
    Forwarded(ToPuppy(level), message, "swiftlog", functionName, file, line, info)
  }

  /** Without metadata anywhere, the forwarded metadata text is "[]". */
  lemma NoMetadataRendersEmpty(loggerLabel: string, level: Level, message: string, source: string, file: string,
                               functionName: string, line: nat)
    ensures LogCall(loggerLabel, map[], level, message, None, source, file, functionName, line).swiftLogInfo["metadata"] == "[]"
  {
    assert SortedKeys(map[]) == [];
  }

  /** A call that sets a key hides the handler's value for it: the record is
      the one forwarded as if the handler did not have that key. */
  lemma CallSiteWins(loggerLabel: string, own: Metadata, level: Level, message: string, call: Metadata,
                     source: string, file: string, functionName: string, line: nat)
    ensures LogCall(loggerLabel, own, level, message, Some(call), source, file, functionName, line)
         == LogCall(loggerLabel, own - call.Keys, level, message, Some(call), source, file, functionName, line)
  {
    OverriddenEntriesVanish(own, call);
  }

  // ------------------------------------------------------- metadata access

  /** The getter of `subscript(metadataKey:)`. */
  function Lookup(m: Metadata, key: string): Option<MetadataValue> {
    if key in m then Some(m[key]) else None
  }

  /** The setter of `subscript(metadataKey:)`: `nil` removes the key. */
  function Assigned(m: Metadata, key: string, v: Option<MetadataValue>): Metadata {
    match v
    case None => m - {key}
    case Some(x) => m[key := x]
  }

  /** Reading a key after setting it gives what was set; other keys keep
      their values. */
  lemma GetAfterSet(m: Metadata, key: string, v: Option<MetadataValue>)
    ensures Lookup(Assigned(m, key, v), key) == v
    ensures forall k :: k != key ==> Lookup(Assigned(m, key, v), k) == Lookup(m, k)
  {
  }

  class PuppyLogHandler {
    var logLevel: Level
    var metadata: Metadata
    const loggerLabel: string

    /** `init(label:puppy:metadata:)`; the level starts at `.info`. */
    constructor (loggerLabel: string, metadata: Metadata)
      ensures this.loggerLabel == loggerLabel && this.metadata == metadata && logLevel == Info
    {
      this.loggerLabel := loggerLabel;
      this.metadata := metadata;
      this.logLevel := Info;
    }

    function Get(key: string): Option<MetadataValue>
      reads this
    {
      Lookup(metadata, key)
    }

    method Set(key: string, newValue: Option<MetadataValue>)
      modifies this
      ensures metadata == Assigned(old(metadata), key, newValue) && logLevel == old(logLevel)
      ensures Get(key) == newValue && forall k :: k != key ==> Get(k) == old(Get(k))
    {
      GetAfterSet(metadata, key, newValue);
      match newValue {
        case None => metadata := metadata - {key};
        case Some(x) => metadata := metadata[key := x];
      }
    }

    /** What `log` hands to `puppy.logMessage`. */
    function Log(level: Level, message: string, call: Option<Metadata>, source: string, file: string,
                 functionName: string, line: nat): Forwarded
      reads this
    {
      LogCall(loggerLabel, metadata, level, message, call, source, file, functionName, line)
    }
  }
}
