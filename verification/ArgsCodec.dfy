/** The argument parsers and encoders as they run: scanning loops that build maps and strings. */
module ArgsCodec {
  import opened Bytes
  import opened Args

  function Resume(n: nat, text: string, r: Indexed): Indexed {
    match r
    case Dangling => Dangling
    case Found(offset, more) => Found(n + offset, text + more)
  }

  lemma ResumeStep(s: string, terms: set<char>, i: nat, text: string)
    requires i < |s| && s[i] !in terms
    ensures s[i] != '\\' ==> Resume(i, text, Index(s[i..], terms)) == Resume(i + 1, text + [s[i]], Index(s[i + 1..], terms))
    ensures s[i] == '\\' && i + 1 < |s| ==>
              Resume(i, text, Index(s[i..], terms)) == Resume(i + 2, text + [s[i + 1]], Index(s[i + 2..], terms))
  {
    if s[i] != '\\' {
      assert s[i..][1..] == s[i + 1..];
    } else if i + 1 < |s| {
      assert s[i..][2..] == s[i + 2..];
    }
  }

  method IndexUnescaped(s: string, terms: set<char>) returns (r: Indexed)
    ensures r == Index(s, terms)
  {
    var text, i := "", 0;
    while i < |s|
      invariant 0 <= i <= |s|
      invariant Index(s, terms) == Resume(i, text, Index(s[i..], terms))
    {
      if s[i] in terms {
        return Found(i, text);
      }
      ResumeStep(s, terms, i, text);
      if s[i] == '\\' {
        if i + 1 == |s| {
          return Dangling;
        }
        text, i := text + [s[i + 1]], i + 2;
      } else {
        text, i := text + [s[i]], i + 1;
      }
    }
    return Found(|s|, text);
  }

  method PushBackslashEscaped(output: string, s: string, special: set<char>) returns (out: string)
    ensures out == output + Escape(s, special)
  {
    out := output;
    for i := 0 to |s|
      invariant output + Escape(s, special) == out + Escape(s[i..], special)
    {
      assert s[i..][1..] == s[i + 1..];
      ghost var rest := Escape(s[i + 1..], special);
      if s[i] == '\\' || s[i] in special {
        Cat(out, ['\\', s[i]], rest);
        out := out + ['\\'];
      } else {
        Cat(out, [s[i]], rest);
      }
      out := out + [s[i]];
    }
  }

  function PrependPairs(done: seq<Pair>, r: Result<seq<Pair>>): Result<seq<Pair>> {
    match r
    case Err(e) => Err(e)
    case Ok(ps) => Ok(done + ps)
  }

  lemma PrependCons(done: seq<Pair>, p: Pair, r: Result<seq<Pair>>)
    ensures PrependPairs(done, Cons(p, r)) == PrependPairs(done + [p], r)
  {
    if r.Ok? {
      assert done + ([p] + r.value) == done + [p] + r.value;
    }
  }

  lemma PrependNothing(s: string, delimiter: char)
    ensures PrependPairs([], ParsePairs(s, delimiter)) == ParsePairs(s, delimiter)
    ensures PrependOptions([], ParseOptions(s)) == ParseOptions(s)
  {
    if ParsePairs(s, delimiter).Ok? {
      assert [] + ParsePairs(s, delimiter).value == ParsePairs(s, delimiter).value;
    }
    if ParseOptions(s).Ok? {
      assert [] + ParseOptions(s).value == ParseOptions(s).value;
    }
  }

  method ParseDelimited(params: string, delimiter: char) returns (r: Result<Bag>)
    requires Delimiter(delimiter)
    ensures r == Parse(params, delimiter)
  {
    var args: Bag := map[];
    if params == "" {
      return Ok(args);
    }
    var remaining := params;
    ghost var done: seq<Pair> := [];
    PrependNothing(params, delimiter);
    while true
      invariant args == BagOf(done)
      invariant ParsePairs(params, delimiter) == PrependPairs(done, ParsePairs(remaining, delimiter))
      decreases |remaining|
    {
      var head := IndexUnescaped(remaining, {'=', delimiter});
      if head.Dangling? {
        return Err(DanglingEscape);
      }
      if head.offset >= |remaining| || remaining[head.offset] != '=' {
        return Err(NoEquals);
      }
      remaining := remaining[head.offset + 1..];
      var tail := IndexUnescaped(remaining, {delimiter});
      if tail.Dangling? {
        return Err(DanglingEscape);
      }
      if head.text == "" {
        return Err(EmptyKey);
      }
      args := Add(args, head.text, tail.text);
      BagSnoc(done, (head.text, tail.text));
      PrependCons(done, (head.text, tail.text), ParsePairs(if tail.offset < |remaining| then remaining[tail.offset + 1..] else "", delimiter));
      done := done + [(head.text, tail.text)];
      if tail.offset == |remaining| {
        return Ok(args);
      }
      remaining := remaining[tail.offset + 1..];
    }
  }

  method ParseClientParameters(params: string) returns (r: Result<Bag>)
    ensures r == Parse(params, ';')
  {
    r := ParseDelimited(params, ';');
  }

  method ParseSmethodArgs(params: string) returns (r: Result<Bag>)
    ensures r == ParseSmethod(params)
  {
    r := ParseDelimited(StripPrefix(params), ',');
  }

  // ------------------------------------------------------------------ encoding

  /** Insert a new key into an ascending list. */
  function Insert(keys: seq<string>, k: string): seq<string> {
    if keys == [] || Less(k, keys[0]) then [k] + keys else [keys[0]] + Insert(keys[1..], k)
  }

  lemma {:induction false} InsertAscending(keys: seq<string>, k: string)
    requires Ascending(keys) && k !in keys
    ensures Ascending(Insert(keys, k))
    ensures forall x :: x in Insert(keys, k) <==> x == k || x in keys
  {
    if keys == [] {
    } else if Less(k, keys[0]) {
      forall j | 0 <= j < |keys|
        ensures Less(k, keys[j])
      {
        if j > 0 {
          LessTrans(k, keys[0], keys[j]);
        }
      }
    } else {
      LessTotal(k, keys[0]);
      InsertAscending(keys[1..], k);
      var rest := Insert(keys[1..], k);
      assert keys == [keys[0]] + keys[1..];
      assert forall x :: x in rest ==> Less(keys[0], x);
      assert forall x :: x in [keys[0]] + rest <==> x == keys[0] || x in rest;
    }
  }

  method SortKeys(bag: Bag) returns (keys: seq<string>)
    ensures SortedKeys(bag, keys)
  {
    keys := [];
    var rest := bag.Keys;
    while rest != {}
      invariant rest <= bag.Keys && Ascending(keys)
      invariant forall k :: k in keys <==> k in bag.Keys - rest
      decreases rest
    {
      var k :| k in rest;
      InsertAscending(keys, k);
      keys := Insert(keys, k);
      rest := rest - {k};
    }
  }

  lemma {:induction false} RenderSnoc(ps: seq<Pair>, p: Pair, delimiter: char)
    ensures Render(ps + [p], delimiter) == Render(ps, delimiter) + (if ps == [] then "" else [delimiter]) + RenderPair(p, delimiter)
  {
    if ps == [] {
      assert ps + [p] == [p];
    } else {
      RenderSnoc(ps[1..], p, delimiter);
      assert (ps + [p])[1..] == ps[1..] + [p];
      var head, mid, last := RenderPair(ps[0], delimiter), Render(ps[1..], delimiter), RenderPair(p, delimiter);
      if |ps| == 1 {
        assert ps[1..] == [];
        assert head + ([delimiter] + ("" + "" + last)) == head + "" + [delimiter] + last;
      } else {
        assert head + ([delimiter] + (mid + [delimiter] + last)) == head + ([delimiter] + mid) + [delimiter] + last;
      }
    }
  }

  /** Append one pair, with a delimiter in front unless it is the first. */
  method PushPair(encoded: string, p: Pair, delimiter: char, ghost done: seq<Pair>) returns (out: string)
    requires encoded == Render(done, delimiter) && (encoded == "" <==> done == [])
    ensures out == Render(done + [p], delimiter) && out != ""
  {
    RenderSnoc(done, p, delimiter);
    out := if encoded == "" then "" else encoded + [delimiter];
    ghost var start := out;
    out := PushBackslashEscaped(out, p.0, Special(delimiter));
    out := out + ['='];
    out := PushBackslashEscaped(out, p.1, Special(delimiter));
    var k, v := Escape(p.0, Special(delimiter)), Escape(p.1, Special(delimiter));
    Cat(start, k, "=");
    Cat(start, k + "=", v);
  }

  lemma {:induction false} RowSnoc(key: string, values: seq<string>, v: string)
    ensures Row(key, values + [v]) == Row(key, values) + [(key, v)]
  {
    if values != [] {
      RowSnoc(key, values[1..], v);
      assert (values + [v])[1..] == values[1..] + [v];
    } else {
      assert values + [v] == [v];
      assert [v][1..] == [];
    }
  }

  lemma {:induction false} RowsSnoc(keys: seq<string>, key: string, bag: Bag)
    requires forall k :: k in keys + [key] ==> k in bag
    ensures forall k :: k in keys ==> k in bag
    ensures key in bag
    ensures Rows(keys + [key], bag) == Rows(keys, bag) + Row(key, bag[key])
  {
    assert key in keys + [key];
    assert forall k :: k in keys ==> k in keys + [key];
    if keys == [] {
      assert keys + [key] == [key];
      assert [key][1..] == [];
    } else {
      assert (keys + [key])[1..] == keys[1..] + [key];
      assert forall k :: k in keys[1..] + [key] ==> k in keys + [key];
      RowsSnoc(keys[1..], key, bag);
      var row, rest := Row(keys[0], bag[keys[0]]), Rows(keys[1..], bag);
      assert Rows(keys + [key], bag) == row + (rest + Row(key, bag[key]));
      assert row + (rest + Row(key, bag[key])) == row + rest + Row(key, bag[key]);
    }
  }

  /** Append one key with all its values. */
  method PushRow(encoded: string, key: string, values: seq<string>, delimiter: char, ghost done: seq<Pair>) returns (out: string)
    requires encoded == Render(done, delimiter) && (encoded == "" <==> done == [])
    ensures out == Render(done + Row(key, values), delimiter) && (out == "" <==> done + Row(key, values) == [])
  {
    out := encoded;
    assert done + Row(key, values[..0]) == done;
    for j := 0 to |values|
      invariant out == Render(done + Row(key, values[..j]), delimiter)
      invariant out == "" <==> done + Row(key, values[..j]) == []
    {
      RowSnoc(key, values[..j], values[j]);
      assert values[..j + 1] == values[..j] + [values[j]];
      assert done + Row(key, values[..j + 1]) == done + Row(key, values[..j]) + [(key, values[j])];
      out := PushPair(out, (key, values[j]), delimiter, done + Row(key, values[..j]));
    }
    assert values[..|values|] == values;
  }

  /** Pairs in ascending key order, special characters escaped. */
  method EncodeDelimited(bag: Bag, delimiter: char) returns (encoded: string, ghost keys: seq<string>)
    requires Delimiter(delimiter)
    ensures SortedKeys(bag, keys)
    ensures encoded == Render(Rows(keys, bag), delimiter)
    ensures Parse(encoded, delimiter) == Ok(bag) <==> Proper(bag)
  {
    var entries := SortKeys(bag);
    keys := entries;
    encoded := "";
    for i := 0 to |entries|
      invariant forall k :: k in entries[..i] ==> k in bag
      invariant encoded == Render(Rows(entries[..i], bag), delimiter)
      invariant encoded == "" <==> Rows(entries[..i], bag) == []
    {
      assert entries[..i + 1] == entries[..i] + [entries[i]];
      RowsSnoc(entries[..i], entries[i], bag);
      encoded := PushRow(encoded, entries[i], bag[entries[i]], delimiter, Rows(entries[..i], bag));
    }
    assert entries[..|entries|] == entries;
    RoundTrip(bag, entries, delimiter);
  }

  // ------------------------------------------------- server transport options

  function PrependOptions(done: seq<ServerOption>, r: Result<seq<ServerOption>>): Result<seq<ServerOption>> {
    match r
    case Err(e) => Err(e)
    case Ok(ts) => Ok(done + ts)
  }

  lemma PrependConsOption(done: seq<ServerOption>, t: ServerOption, r: Result<seq<ServerOption>>)
    ensures PrependOptions(done, ConsOption(t, r)) == PrependOptions(done + [t], r)
  {
    if r.Ok? {
      assert done + ([t] + r.value) == done + [t] + r.value;
    }
  }

  lemma OptsSnoc(ts: seq<ServerOption>, t: ServerOption)
    ensures OptsOf(ts + [t]) == AddOption(OptsOf(ts), t)
  {
    assert (ts + [t])[..|ts|] == ts;
  }

  method ParseServerTransportOptions(s: string) returns (r: Result<Opts>)
    ensures r == ParseOpts(s) && (s == "" ==> r == Ok(map[]))
  {
    var opts: Opts := map[];
    if s == "" {
      return Ok(opts);
    }
    var remaining := s;
    ghost var done: seq<ServerOption> := [];
    PrependNothing(s, ';');
    while true
      invariant opts == OptsOf(done)
      invariant ParseOptions(s) == PrependOptions(done, ParseOptions(remaining))
      decreases |remaining|
    {
      var next := ReadOption(remaining);
      if next.Err? {
        return Err(next.error);
      }
      var t, rest := next.value.0, next.value.1;
      opts := AddOption(opts, t);
      OptsSnoc(done, t);
      PrependConsOption(done, t, ParseOptions(if rest.Some? then rest.value else ""));
      done := done + [t];
      if rest.None? {
        return Ok(opts);
      }
      remaining := rest.value;
    }
  }

  /** The first option of a text, and what follows its semicolon if there is one. */
  ghost predicate ReadsFirst(parsed: Result<seq<ServerOption>>, s: string, r: Result<(ServerOption, Option<string>)>) {
    match r
    case Err(e) => parsed == Err(e)
    case Ok((t, None)) => parsed == Ok([t])
    case Ok((t, Some(rest))) => |rest| < |s| && parsed == ConsOption(t, ParseOptions(rest))
  }

  method ReadOption(s: string) returns (r: Result<(ServerOption, Option<string>)>)
    ensures ReadsFirst(ParseOptions(s), s, r)
  {
    var name := IndexUnescaped(s, {':', '=', ';'});
    if name.Dangling? {
      return Err(DanglingEscape);
    }
    if name.offset >= |s| || s[name.offset] != ':' {
      return Err(NoColon);
    }
    var remaining := s[name.offset + 1..];
    assert ParseOptions(s) == ParseOptionKey(name.text, remaining);
    var key := IndexUnescaped(remaining, {'=', ';'});
    if key.Dangling? {
      return Err(DanglingEscape);
    }
    if key.offset >= |remaining| || remaining[key.offset] != '=' {
      return Err(NoEquals);
    }
    r := ReadOptionValue(name.text, key.text, remaining[key.offset + 1..]);
  }

  method ReadOptionValue(name: string, key: string, s: string) returns (r: Result<(ServerOption, Option<string>)>)
    ensures ReadsFirst(ParseOptionValue(name, key, s), s, r)
  {
    var value := IndexUnescaped(s, {';'});
    if value.Dangling? {
      return Err(DanglingEscape);
    }
    if name == "" {
      return Err(EmptyMethod);
    }
    if key == "" {
      return Err(EmptyKey);
    }
    var rest := if value.offset == |s| then None else Some(s[value.offset + 1..]);
    return Ok((ServerOption(name, key, value.text), rest));
  }
}
