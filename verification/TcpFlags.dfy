/** The text form of TCP flags (app/pktgen-cmds.c:2791-2853, lib/common/pg_inet.h:172-203). A flag
    word is the set of its bit numbers. */
module TcpFlags {
  import opened Sequences

  type Flags = set<nat>

  datatype TcpFlag = TcpFlag(name: string, bit: nat)

  const TCP_FLAGS_LIST := [
    TcpFlag("rs0", 11), TcpFlag("rs1", 10), TcpFlag("rs2", 9), TcpFlag("rs3", 8),
    TcpFlag("cwr", 7), TcpFlag("ece", 6), TcpFlag("urg", 5), TcpFlag("ack", 4),
    TcpFlag("psh", 3), TcpFlag("rst", 2), TcpFlag("syn", 1), TcpFlag("fin", 0)]
  const TCP_FLAGS_MASK: Flags := {0, 1, 2, 3, 4, 5, 6, 7, 8, 9, 10, 11}

  const MAX_FIELDS := 16
  const FLAGS_STR := 128

  // --- the printer

  /** The names of the flags that are set, in the order of the list. */
  function Names(list: seq<TcpFlag>, flags: Flags): (names: seq<string>)
    ensures |names| <= |list|
  {
    if list == [] then []
    else if list[0].bit in flags then [list[0].name] + Names(list[1..], flags)
    else Names(list[1..], flags)
  }

  function Join(names: seq<string>): string {
    if names == [] then "" else names[0] + Tail(names[1..])
  }

  /** Each name after a comma. */
  function Tail(names: seq<string>): string {
    if names == [] then "" else "," + names[0] + Tail(names[1..])
  }

  /** What is printed for the i-th name. */
  function Piece(names: seq<string>, i: nat): string
    requires i < |names|
  {
    if i == 0 then names[0] else "," + names[i]
  }

  /** The printer's length test for the i-th name: it counts the piece before it once more. */
  predicate Room(names: seq<string>, i: nat, len: nat)
    requires i < |names|
  {
    |Join(names[..i])| + (if i == 0 then 0 else |Piece(names, i - 1)|) + |names[i]| + 1 < len
  }

  predicate AllFit(names: seq<string>, len: nat) {
    forall i :: 0 <= i < |names| ==> Room(names, i, len)
  }

  lemma {:induction false} TailOne(names: seq<string>, name: string)
    ensures Tail(names + [name]) == Tail(names) + ("," + name)
  {
    if names == [] {
      assert [name][1..] == [] && Tail([]) == "";
      assert ("," + name) + "" == "" + ("," + name);
    } else {
      assert (names + [name])[1..] == names[1..] + [name];
      TailOne(names[1..], name);
      Regroup("," + names[0], Tail(names[1..]), "," + name);
    }
  }

  lemma JoinOne(names: seq<string>, name: string)
    ensures Join(names + [name]) == Join(names) + if names == [] then name else "," + name
  {
    if names == [] {
      assert [name][1..] == [] && Tail([]) == "";
      assert name + "" == "" + name;
    } else {
      assert (names + [name])[1..] == names[1..] + [name];
      TailOne(names[1..], name);
      Regroup(names[0], Tail(names[1..]), "," + name);
    }
  }

  /** The printer's variables after the names of `done`. */
  ghost predicate Printing(done: seq<string>, buf: string, len: int, n: nat, started: bool, size: nat) {
    && buf == Join(done) && started == (done != []) && len == size - |buf|
    && n == (if done == [] then 0 else |Piece(done, |done| - 1)|)
    && AllFit(done, size)
  }

  /** One name, if there is room for it by the printer's test. */
  method PrintName(buf: string, len: int, n: nat, started: bool, name: string, ghost done: seq<string>, size: nat)
    returns (ok: bool, buf': string, len': int, n': nat)
    requires Printing(done, buf, len, n, started, size)
    ensures ok <==> AllFit(done + [name], size)
    ensures ok ==> Printing(done + [name], buf', len', n', true, size)
  {
    StepFits(done, name, size);
    buf', len', n' := buf, len, n;
    ok := n + |name| + 1 < len;
    if ok {
      var piece := (if started then "," else "") + name;
      JoinOne(done, name);
      buf' := buf + piece;
      n' := |piece|;
      len' := len - n';
    }
  }

  /** `done` are the names of the first k flags. */
  ghost predicate Named(list: seq<TcpFlag>, flags: Flags, k: nat, done: seq<string>) {
    k <= |list| && Names(list, flags) == done + Names(list[k..], flags)
  }

  lemma NamedStep(list: seq<TcpFlag>, flags: Flags, k: nat, done: seq<string>)
    requires k < |list| && Named(list, flags, k, done)
    ensures list[k].bit !in flags ==> Named(list, flags, k + 1, done)
    ensures list[k].bit in flags ==>
              && Named(list, flags, k + 1, done + [list[k].name])
              && Names(list, flags) == done + ([list[k].name] + Names(list[k + 1..], flags))
  {
    assert list[k..][1..] == list[k + 1..];
    var rest := Names(list[k + 1..], flags);
    assert done + [list[k].name] + rest == done + ([list[k].name] + rest);
  }

  /** Prints into a buffer of size bytes. */
  method StrFromFlags(list: seq<TcpFlag>, mask: Flags, flags: Flags, size: nat) returns (r: int, buf: string)
    ensures r == if size >= 4 && (flags * mask == {} || AllFit(Names(list, flags), size)) then 0 else -1
    ensures r == 0 ==> buf == if flags * mask == {} then "clr" else Join(Names(list, flags))
  {
    buf := "";
    if size < 4 {
      return -1, buf;
    }
    if flags * mask == {} {
      return 0, "clr";
    }
    var len: int, n: nat, started := size, 0, false;
    ghost var done: seq<string> := [];
    var k := 0;
    assert list[0..] == list;
    while k < |list|
      invariant 0 <= k <= |list|
      invariant Named(list, flags, k, done)
      invariant Printing(done, buf, len, n, started, size)
    {
      var flag := list[k];
      NamedStep(list, flags, k, done);
      if flag.bit in flags {
        var ok;
        ok, buf, len, n := PrintName(buf, len, n, started, flag.name, done, size);
        if !ok {
          if AllFit(Names(list, flags), size) {
            PrefixFits(done, flag.name, Names(list[k + 1..], flags), size);
          }
          return -1, buf;
        }
        started := true;
        done := done + [flag.name];
      }
      k := k + 1;
    }
    assert done + [] == done;
    r := 0;
  }

  /** Printing fails as soon as one more name has no room. */
  lemma PrefixFits(done: seq<string>, name: string, rest: seq<string>, size: nat)
    requires AllFit(done + ([name] + rest), size)
    ensures AllFit(done + [name], size)
  {
    var next, all := done + [name], done + ([name] + rest);
    forall i | 0 <= i < |next|
      ensures Room(next, i, size)
    {
      assert Room(all, i, size);
      assert next[..i] == all[..i];
    }
  }

  lemma StepFits(done: seq<string>, name: string, size: nat)
    requires AllFit(done, size)
    ensures var n := if done == [] then 0 else |Piece(done, |done| - 1)|;
            AllFit(done + [name], size) <==> |Join(done)| + n + |name| + 1 < size
  {
    var next := done + [name];
    assert next[..|done|] == done;
    forall i | 0 <= i < |done|
      ensures Room(next, i, size) <==> Room(done, i, size)
    {
      assert next[..i] == done[..i];
    }
    assert AllFit(next, size) ==> Room(next, |done|, size);
  }

  // --- the parser

  /** rte_strsplit: at most `max` fields of s; the last one takes what is left, and an empty end
      gives no field. */
  function Fields(s: string, max: nat): (fields: seq<string>)
    decreases |s|
  {
    if s == "" || max == 0 then []
    else
      var i := FieldEnd(s);
      if i == |s| then [s]
      else if max == 1 && i > 0 then [s]
      else [s[..i]] + Fields(s[i + 1..], max - 1)
  }

  /** Where the first field ends. */
  function FieldEnd(s: string): (i: nat)
    ensures i <= |s| && ',' !in s[..i] && (i < |s| ==> s[i] == ',')
  {
    if s == "" || s[0] == ',' then 0
    else
      var i := FieldEnd(s[1..]) + 1;
      assert s[..i] == [s[0]] + s[1..][..i - 1];
      i
  }

  /** The bit of the first flag with this name. */
  function Lookup(list: seq<TcpFlag>, name: string): Flags {
    if list == [] then {} else if list[0].name == name then {list[0].bit} else Lookup(list[1..], name)
  }

  /** The flags after all fields: each adds its bit, and "clr" starts over. */
  function Parsed(list: seq<TcpFlag>, fields: seq<string>): Flags {
    if fields == [] then {}
    else
      var last := fields[|fields| - 1];
      if last == "clr" then {} else Parsed(list, fields[..|fields| - 1]) + Lookup(list, last)
  }

  method FlagsFromStr(list: seq<TcpFlag>, str: string) returns (flags: Flags)
    ensures flags == Parsed(list, Fields(if |str| < 128 then str else str[..127], 16))
  {
    var copy := if |str| < FLAGS_STR then str else str[..FLAGS_STR - 1];
    var fields := Fields(copy, MAX_FIELDS);
    flags := {};
    var i := 0;
    while i < |fields|
      invariant 0 <= i <= |fields|
      invariant flags == Parsed(list, fields[..i])
    {
      assert fields[..i + 1][..i] == fields[..i];
      if fields[i] == "clr" {
        flags := {};
      } else {
        var k := 0;
        ghost var before := flags;
        assert list[0..] == list;
        while k < |list| && fields[i] != list[k].name
          invariant 0 <= k <= |list| && flags == before
          invariant Lookup(list, fields[i]) == Lookup(list[k..], fields[i])
        {
          assert list[k..][1..] == list[k + 1..];
          k := k + 1;
        }
        if k < |list| {
          flags := flags + {list[k].bit};
        }
      }
      i := i + 1;
    }
    assert fields[..|fields|] == fields;
  }

  /** Everything up to a "clr" is forgotten. */
  lemma {:induction false} OnlyAfterLastClr(list: seq<TcpFlag>, before: seq<string>, after: seq<string>)
    ensures Parsed(list, before + ["clr"] + after) == Parsed(list, after)
  {
    var all := before + ["clr"] + after;
    if after == [] {
      assert all == before + ["clr"];
    } else {
      var n := |after| - 1;
      OnlyAfterLastClr(list, before, after[..n]);
      assert all[..|all| - 1] == before + ["clr"] + after[..n];
    }
  }

  // --- printing and parsing back

  /** At most 16 flags with distinct, non-empty, comma-free names other than "clr"; the mask is made up
      of their bits, which need not be distinct. */
  ghost predicate GoodTable(list: seq<TcpFlag>, mask: Flags) {
    && |list| <= MAX_FIELDS
    && (forall i :: 0 <= i < |list| ==> list[i].name != "" && list[i].name != "clr" && ',' !in list[i].name)
    && (forall i, j :: 0 <= i < j < |list| ==> list[i].name != list[j].name)
    && (forall b :: b in mask <==> exists i :: 0 <= i < |list| && list[i].bit == b)
  }

  ghost predicate PlainNames(names: seq<string>) {
    forall i :: 0 <= i < |names| ==> names[i] != "" && names[i] != "clr" && ',' !in names[i]
  }

  lemma {:induction false} FieldEndAt(name: string, rest: string)
    requires ',' !in name && (rest == "" || rest[0] == ',')
    ensures FieldEnd(name + rest) == |name|
  {
    if name == "" {
      assert name + rest == rest;
    } else {
      assert (name + rest)[1..] == name[1..] + rest;
      FieldEndAt(name[1..], rest);
    }
  }

  lemma FieldThenRest(name: string, rest: string, max: nat)
    requires ',' !in name && max > 1
    ensures Fields(name + "," + rest, max) == [name] + Fields(rest, max - 1)
  {
    var text := name + ("," + rest);
    FieldEndAt(name, "," + rest);
    assert name + "," + rest == text;
    assert text[..|name|] == name && text[|name| + 1..] == rest;
  }

  lemma LastField(name: string, max: nat)
    requires ',' !in name && max > 0 && name != ""
    ensures Fields(name, max) == [name]
  {
    FieldEndAt(name, "");
    assert name + "" == name;
  }

  lemma OneFieldText(names: seq<string>, max: nat)
    requires PlainNames(names) && |names| == 1 && max > 0
    ensures Fields(Join(names), max) == names
  {
    assert names[1..] == [] && Tail([]) == "";
    assert names[0] + "" == names[0];
    LastField(names[0], max);
    assert names == [names[0]];
  }

  lemma ManyFieldText(names: seq<string>, max: nat)
    requires PlainNames(names) && |names| > 1 && max > 1
    requires Fields(Join(names[1..]), max - 1) == names[1..]
    ensures Fields(Join(names), max) == names
  {
    TextSplits(names);
    FieldThenRest(names[0], Join(names[1..]), max);
    assert names == [names[0]] + names[1..];
  }

  lemma {:induction false} FieldsOfText(names: seq<string>, max: nat)
    requires PlainNames(names) && 0 < |names| <= max
    ensures Fields(Join(names), max) == names
    decreases |names|
  {
    if |names| == 1 {
      OneFieldText(names, max);
    } else {
      FieldsOfText(names[1..], max - 1);
      ManyFieldText(names, max);
    }
  }

  lemma TextSplits(names: seq<string>)
    requires |names| > 1
    ensures Join(names) == names[0] + "," + Join(names[1..])
  {
    var rest := names[1..];
    assert Tail(rest) == "," + rest[0] + Tail(rest[1..]);
    assert "," + rest[0] + Tail(rest[1..]) == "," + (rest[0] + Tail(rest[1..]));
    assert names[0] + ("," + Join(rest)) == names[0] + "," + Join(rest);
  }

  lemma {:induction false} NamesArePlain(list: seq<TcpFlag>, flags: Flags)
    requires forall i :: 0 <= i < |list| ==> list[i].name != "" && list[i].name != "clr" && ',' !in list[i].name
    ensures PlainNames(Names(list, flags))
    ensures Names(list, flags) == [] <==> forall i :: 0 <= i < |list| ==> list[i].bit !in flags
  {
    if list != [] {
      NamesArePlain(list[1..], flags);
      assert forall i :: 1 <= i < |list| ==> list[i] == list[1..][i - 1];
    }
  }

  lemma {:induction false} LookupOwn(list: seq<TcpFlag>, i: nat)
    requires i < |list| && forall j, k :: 0 <= j < k < |list| ==> list[j].name != list[k].name
    ensures Lookup(list, list[i].name) == {list[i].bit}
  {
    if i > 0 {
      LookupOwn(list[1..], i - 1);
    }
  }

  /** The bits of names that belong to flags. */
  lemma {:induction false} ParsedNames(list: seq<TcpFlag>, names: seq<string>)
    requires PlainNames(names)
    ensures forall b :: b in Parsed(list, names) <==> exists i :: 0 <= i < |names| && b in Lookup(list, names[i])
  {
    if names != [] {
      var n := |names| - 1;
      ParsedNames(list, names[..n]);
      forall b | b in Parsed(list, names)
        ensures exists i :: 0 <= i < |names| && b in Lookup(list, names[i])
      {
        if b in Parsed(list, names[..n]) {
          var i :| 0 <= i < n && b in Lookup(list, names[..n][i]);
          assert names[i] == names[..n][i];
        } else {
          assert b in Lookup(list, names[n]);
        }
      }
      forall i | 0 <= i < |names|
        ensures Lookup(list, names[i]) <= Parsed(list, names)
      {
        if i < n {
          assert names[..n][i] == names[i];
        }
      }
    }
  }

  lemma {:induction false} NamesOfFlags(list: seq<TcpFlag>, flags: Flags, name: string)
    ensures name in Names(list, flags) <==> exists i :: 0 <= i < |list| && list[i].name == name && list[i].bit in flags
  {
    if list != [] {
      NamesOfFlags(list[1..], flags, name);
      assert forall i :: 1 <= i < |list| ==> list[i] == list[1..][i - 1];
      assert forall i :: 0 <= i < |list| - 1 ==> list[1..][i] == list[i + 1];
    }
  }

  lemma ParsedIsMasked(list: seq<TcpFlag>, mask: Flags, flags: Flags)
    requires GoodTable(list, mask)
    ensures Parsed(list, Names(list, flags)) == flags * mask
  {
    var names := Names(list, flags);
    NamesArePlain(list, flags);
    ParsedNames(list, names);
    forall b
      ensures b in Parsed(list, names) <==> b in flags * mask
    {
      if b in Parsed(list, names) {
        var i :| 0 <= i < |names| && b in Lookup(list, names[i]);
        NamesOfFlags(list, flags, names[i]);
        var k :| 0 <= k < |list| && list[k].name == names[i] && list[k].bit in flags;
        LookupOwn(list, k);
      }
      if b in flags * mask {
        var k :| 0 <= k < |list| && list[k].bit == b;
        NamesOfFlags(list, flags, list[k].name);
        var i :| 0 <= i < |names| && names[i] == list[k].name;
        LookupOwn(list, k);
      }
    }
  }

  /** For every good table, printing into at most 128 bytes and parsing the text gives back the
      masked flags, whenever the print succeeds. */
  lemma PrintedFlagsParse(list: seq<TcpFlag>, mask: Flags, flags: Flags, size: nat)
    requires GoodTable(list, mask) && 4 <= size <= FLAGS_STR
    requires flags * mask == {} || AllFit(Names(list, flags), size)
    ensures var text := if flags * mask == {} then "clr" else Join(Names(list, flags));
            |text| < size && Parsed(list, Fields(text, MAX_FIELDS)) == flags * mask
  {
    if flags * mask == {} {
      LastField("clr", MAX_FIELDS);
    } else {
      var names := Names(list, flags);
      ParsedIsMasked(list, mask, flags);
      NamesArePlain(list, flags);
      assert names != [];
      FieldsOfText(names, MAX_FIELDS);
      TextFits(names, size);
    }
  }

  lemma TextFits(names: seq<string>, size: nat)
    requires names != [] && AllFit(names, size)
    ensures |Join(names)| < size
  {
    var n := |names| - 1;
    assert Room(names, n, size);
    assert names == names[..n] + [names[n]];
    JoinOne(names[..n], names[n]);
  }

  // --- the TCP table

  /** The bits count down, and the names differ in their first or third letter. */
  lemma TableEntry(i: nat)
    requires i < |TCP_FLAGS_LIST|
    ensures var f := TCP_FLAGS_LIST[i];
            f.bit == 11 - i && |f.name| == 3 && f.name[0] == "rrrrceuaprsf"[i] && f.name[2] == "0123regkhtnn"[i]
            && f.name != "clr" && ',' !in f.name
  {
    var f := TCP_FLAGS_LIST[i];
    assert f.name[1] != 'l' && f.name[1] != ',';
  }

  lemma NamesDiffer(i: nat, j: nat)
    requires i < j < |TCP_FLAGS_LIST|
    ensures TCP_FLAGS_LIST[i].name != TCP_FLAGS_LIST[j].name
  {
    TableEntry(i);
    TableEntry(j);
    var first, third := "rrrrceuaprsf", "0123regkhtnn";
    assert first[i] != first[j] || third[i] != third[j];
  }

  lemma MaskBit(b: nat)
    ensures b in TCP_FLAGS_MASK <==> b < |TCP_FLAGS_LIST|
  {
  }

  lemma MaskIsUnion(b: nat)
    ensures b in TCP_FLAGS_MASK <==> exists i :: 0 <= i < |TCP_FLAGS_LIST| && TCP_FLAGS_LIST[i].bit == b
  {
    MaskBit(b);
    if b < |TCP_FLAGS_LIST| {
      TableEntry(11 - b);
    }
    forall i: nat | i < |TCP_FLAGS_LIST|
      ensures TCP_FLAGS_LIST[i].bit < |TCP_FLAGS_LIST|
    {
      TableEntry(i);
    }
  }

  lemma MaskIsTheUnion(list: seq<TcpFlag>, mask: Flags)
    requires list == TCP_FLAGS_LIST && mask == TCP_FLAGS_MASK
    ensures forall b: nat :: b in mask <==> exists i :: 0 <= i < |list| && list[i].bit == b
  {
    forall b: nat
      ensures b in mask <==> exists i :: 0 <= i < |list| && list[i].bit == b
    {
      MaskIsUnion(b);
    }
  }

  lemma TableNames(list: seq<TcpFlag>)
    requires list == TCP_FLAGS_LIST
    ensures |list| == 12
    ensures forall i: nat :: i < |list| ==> |list[i].name| == 3 && list[i].name != "clr" && ',' !in list[i].name
    ensures forall i: nat, j: nat :: i < j < |list| ==> list[i].name != list[j].name
  {
    forall i: nat | i < |list|
      ensures |list[i].name| == 3 && list[i].name != "clr" && ',' !in list[i].name
    {
      TableEntry(i);
    }
    forall i: nat, j: nat | i < j < |list|
      ensures list[i].name != list[j].name
    {
      NamesDiffer(i, j);
    }
  }

  lemma GoodByParts(list: seq<TcpFlag>, mask: Flags)
    requires |list| <= MAX_FIELDS
    requires forall i: nat :: i < |list| ==> list[i].name != "" && list[i].name != "clr" && ',' !in list[i].name
    requires forall i: nat, j: nat :: i < j < |list| ==> list[i].name != list[j].name
    requires forall b: nat :: b in mask <==> exists i :: 0 <= i < |list| && list[i].bit == b
    ensures GoodTable(list, mask)
  {
  }

  /** TCP's table meets the conditions, and its names have three letters. */
  lemma TcpTableIsGood(list: seq<TcpFlag>, mask: Flags)
    requires list == TCP_FLAGS_LIST && mask == TCP_FLAGS_MASK
    ensures GoodTable(list, mask) && |list| == 12
    ensures forall i: nat :: i < |list| ==> |list[i].name| == 3
  {
    TableNames(list);
    MaskIsTheUnion(list, mask);
    GoodByParts(list, mask);
  }

  ghost predicate Short(names: seq<string>) {
    forall i :: 0 <= i < |names| ==> |names[i]| == 3
  }

  lemma {:induction false} ShortNames(list: seq<TcpFlag>, flags: Flags)
    requires forall i :: 0 <= i < |list| ==> |list[i].name| == 3
    ensures Short(Names(list, flags))
  {
    if list != [] {
      ShortNames(list[1..], flags);
    }
  }

  lemma {:induction false} ShortText(names: seq<string>)
    requires Short(names)
    ensures |Join(names)| == if names == [] then 0 else 4 * |names| - 1
  {
    if names != [] {
      var n := |names| - 1;
      ShortText(names[..n]);
      assert names == names[..n] + [names[n]];
      JoinOne(names[..n], names[n]);
    }
  }

  lemma ShortAllFit(names: seq<string>, size: nat)
    requires Short(names) && |names| <= 12 && size >= 52
    ensures AllFit(names, size)
  {
    forall i | 0 <= i < |names|
      ensures Room(names, i, size)
    {
      ShortText(names[..i]);
    }
  }

  /** For TCP's own twelve flags a buffer of 52 bytes is always enough, and up to 128 bytes the
      text brings back the low twelve bits of any flag word. */
  lemma TcpFlagsRoundTrip(list: seq<TcpFlag>, mask: Flags, flags: Flags, size: nat)
    requires list == TCP_FLAGS_LIST && mask == TCP_FLAGS_MASK
    requires 52 <= size <= FLAGS_STR
    ensures AllFit(Names(list, flags), size)
    ensures var text := if flags * mask == {} then "clr" else Join(Names(list, flags));
            Parsed(list, Fields(text, MAX_FIELDS)) == flags * mask
  {
    TcpTableIsGood(list, mask);
    ShortNames(list, flags);
    ShortAllFit(Names(list, flags), size);
    PrintedFlagsParse(list, mask, flags, size);
  }

  lemma TableHas(list: seq<TcpFlag>, standard: seq<string>, b: nat)
    requires list == TCP_FLAGS_LIST && b < 8
    requires standard == ["fin", "syn", "rst", "psh", "ack", "urg", "ece", "cwr"]
    ensures |list| == 12 && list[11 - b] == TcpFlag(standard[b], b)
  {
  }

  lemma LookupAt(list: seq<TcpFlag>, mask: Flags, i: nat, name: string, bit: nat)
    requires GoodTable(list, mask) && i < |list| && list[i] == TcpFlag(name, bit)
    ensures Lookup(list, name) == {bit}
  {
    LookupOwn(list, i);
  }

  lemma LookupTcp(list: seq<TcpFlag>, i: nat, name: string, bit: nat)
    requires list == TCP_FLAGS_LIST && i < |list| && list[i] == TcpFlag(name, bit)
    ensures Lookup(list, name) == {bit}
  {
    TcpTableIsGood(list, TCP_FLAGS_MASK);
    LookupAt(list, TCP_FLAGS_MASK, i, name, bit);
  }

  /** The bits that section 3.1 of RFC 9293 gives the flags of TCP, by name. */
  lemma StandardBit(list: seq<TcpFlag>, standard: seq<string>, name: string, b: nat)
    requires list == TCP_FLAGS_LIST && b < 8
    requires standard == ["fin", "syn", "rst", "psh", "ack", "urg", "ece", "cwr"] && name == standard[b]
    ensures Lookup(list, name) == {b}
  {
    TableHas(list, standard, b);
    LookupTcp(list, 11 - b, name, b);
  }
}
