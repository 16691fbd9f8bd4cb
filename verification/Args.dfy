/** Key-value argument bags: the backslash-escaped client, SMETHOD and server-option grammars. */
module Args {

  datatype ParseError = DanglingEscape | NoEquals | EmptyKey | NoColon | EmptyMethod
  datatype Result<+T> = Ok(value: T) | Err(error: ParseError)

  // ------------------------------------------------------------------ escaping

  function EscapedChar(c: char, special: set<char>): string {
    if c == '\\' || c in special then ['\\', c] else [c]
  }

  function Escape(s: string, special: set<char>): string {
    if s == "" then "" else EscapedChar(s[0], special) + Escape(s[1..], special)
  }

  datatype Indexed = Found(offset: nat, text: string) | Dangling

  /** The first unescaped terminator, or the end, and the unescaped text before it. */
  function Index(s: string, terms: set<char>): (r: Indexed)
    ensures r.Found? ==> r.offset <= |s| && (r.offset < |s| ==> s[r.offset] in terms)
  {
    if s == "" || s[0] in terms then Found(0, "")
    else if s[0] == '\\' then
      if |s| == 1 then Dangling
      else
        match Index(s[2..], terms)
        case Dangling => Dangling
        case Found(n, text) => Found(n + 2, [s[1]] + text)
    else
      match Index(s[1..], terms)
      case Dangling => Dangling
      case Found(n, text) => Found(n + 1, [s[0]] + text)
  }

  function Shift(n: nat, c: char, r: Indexed): Indexed {
    match r
    case Dangling => Dangling
    case Found(offset, text) => Found(offset + n, [c] + text)
  }

  lemma IndexEscaped(c: char, t: string, terms: set<char>)
    requires '\\' !in terms
    ensures Index(['\\', c] + t, terms) == Shift(2, c, Index(t, terms))
  {
    assert (['\\', c] + t)[2..] == t;
  }

  lemma IndexPlain(c: char, t: string, terms: set<char>)
    requires c !in terms && c != '\\'
    ensures Index([c] + t, terms) == Shift(1, c, Index(t, terms))
  {
    assert ([c] + t)[1..] == t;
  }

  /** Scanning stops exactly at the end of an escaped text and undoes the escaping. */
  lemma {:induction false} IndexUndoesEscape(x: string, special: set<char>, terms: set<char>, rest: string)
    requires terms <= special && '\\' !in terms
    requires rest == "" || rest[0] in terms
    ensures Index(Escape(x, special) + rest, terms) == Found(|Escape(x, special)|, x)
  {
    if x == "" {
      assert Escape(x, special) + rest == rest;
      IndexStops(rest, terms);
    } else {
      var shorter := Escape(x[1..], special);
      IndexUndoesEscape(x[1..], special, terms, rest);
      IndexEscapedHead(x, special, terms, rest);
      ShiftFound(|EscapedChar(x[0], special)|, |shorter|, x);
    }
  }

  lemma IndexStops(s: string, terms: set<char>)
    requires s == "" || s[0] in terms
    ensures Index(s, terms) == Found(0, "")
  {
  }

  lemma ShiftFound(n: nat, offset: nat, x: string)
    requires x != ""
    ensures Shift(n, x[0], Found(offset, x[1..])) == Found(offset + n, x)
  {
    assert [x[0]] + x[1..] == x;
  }

  /** Scanning an escaped text reads its first character, then the rest. */
  lemma IndexEscapedHead(x: string, special: set<char>, terms: set<char>, rest: string)
    requires terms <= special && '\\' !in terms && x != ""
    ensures var n := |EscapedChar(x[0], special)|;
            && |Escape(x, special)| == n + |Escape(x[1..], special)|
            && Index(Escape(x, special) + rest, terms) == Shift(n, x[0], Index(Escape(x[1..], special) + rest, terms))
  {
    Cat(EscapedChar(x[0], special), Escape(x[1..], special), rest);
    IndexEscapedChar(x[0], special, terms, Escape(x[1..], special) + rest);
  }

  lemma IndexEscapedChar(c: char, special: set<char>, terms: set<char>, t: string)
    requires terms <= special && '\\' !in terms
    ensures Index(EscapedChar(c, special) + t, terms) == Shift(|EscapedChar(c, special)|, c, Index(t, terms))
  {
    if c == '\\' || c in special {
      IndexEscaped(c, t, terms);
    } else {
      IndexPlain(c, t, terms);
    }
  }

  /** Text after the stopping point does not matter, provided it starts with a terminator when the end was reached. */
  lemma {:induction false} IndexExtend(s: string, terms: set<char>, more: string)
    requires Index(s, terms).Found?
    requires Index(s, terms).offset == |s| ==> more == "" || more[0] in terms
    ensures Index(s + more, terms) == Index(s, terms)
  {
    if s == "" {
      assert s + more == more;
    } else if s[0] in terms {
    } else if s[0] == '\\' {
      assert (s + more)[2..] == s[2..] + more;
      IndexExtend(s[2..], terms, more);
    } else {
      assert (s + more)[1..] == s[1..] + more;
      IndexExtend(s[1..], terms, more);
    }
  }

  // --------------------------------------------------------------------- bags

  type Bag = map<string, seq<string>>
  type Pair = (string, string)

  function Get(bag: Bag, key: string): seq<string> {
    if key in bag then bag[key] else []
  }

  function Add(bag: Bag, key: string, value: string): Bag {
    bag[key := Get(bag, key) + [value]]
  }

  function BagOf(ps: seq<Pair>): Bag {
    if ps == [] then map[] else Add(BagOf(ps[..|ps| - 1]), ps[|ps| - 1].0, ps[|ps| - 1].1)
  }

  /** The values given for one key, in order. */
  function ValuesOf(ps: seq<Pair>, key: string): seq<string> {
    if ps == [] then []
    else ValuesOf(ps[..|ps| - 1], key) + if ps[|ps| - 1].0 == key then [ps[|ps| - 1].1] else []
  }

  /** A bag lists, for each key that occurs, its values in order. */
  lemma {:induction false} BagHoldsValues(ps: seq<Pair>, key: string)
    ensures Get(BagOf(ps), key) == ValuesOf(ps, key)
    ensures key in BagOf(ps) <==> ValuesOf(ps, key) != []
  {
    if ps != [] {
      BagHoldsValues(ps[..|ps| - 1], key);
    }
  }

  lemma {:induction false} ValuesAppend(a: seq<Pair>, b: seq<Pair>, key: string)
    ensures ValuesOf(a + b, key) == ValuesOf(a, key) + ValuesOf(b, key)
  {
    if b == [] {
      assert a + b == a;
    } else {
      var n := |b| - 1;
      ValuesAppend(a, b[..n], key);
      assert (a + b)[..|a| + n] == a + b[..n];
    }
  }

  function Merge(a: Bag, b: Bag): Bag {
    map k | k in a.Keys + b.Keys :: Get(a, k) + Get(b, k)
  }

  lemma BagAppend(a: seq<Pair>, b: seq<Pair>)
    ensures BagOf(a + b) == Merge(BagOf(a), BagOf(b))
  {
    forall k: string
      ensures Get(BagOf(a + b), k) == Get(BagOf(a), k) + Get(BagOf(b), k)
      ensures k in BagOf(a + b) <==> k in BagOf(a) || k in BagOf(b)
    {
      ValuesAppend(a, b, k);
      BagHoldsValues(a, k);
      BagHoldsValues(b, k);
      BagHoldsValues(a + b, k);
    }
  }

  // ------------------------------------------------------------------ grammar

  function Cons(p: Pair, r: Result<seq<Pair>>): Result<seq<Pair>> {
    match r
    case Err(e) => Err(e)
    case Ok(ps) => Ok([p] + ps)
  }

  /** The pairs of a non-empty delimited string. */
  function ParsePairs(s: string, delimiter: char): Result<seq<Pair>>
    decreases |s|
  {
    match Index(s, {'=', delimiter})
    case Dangling => Err(DanglingEscape)
    case Found(offset, key) =>
      if offset >= |s| || s[offset] != '=' then Err(NoEquals)
      else ParseValue(key, s[offset + 1..], delimiter)
  }

  /** The value after a key's equals sign, and the pairs that follow it. */
  function ParseValue(key: string, s: string, delimiter: char): Result<seq<Pair>>
    decreases |s|
  {
    match Index(s, {delimiter})
    case Dangling => Err(DanglingEscape)
    case Found(end, value) =>
      if key == "" then Err(EmptyKey)
      else if end == |s| then Ok([(key, value)])
      else Cons((key, value), ParsePairs(s[end + 1..], delimiter))
  }

  function Parse(s: string, delimiter: char): Result<Bag> {
    if s == "" then Ok(map[])
    else
      match ParsePairs(s, delimiter)
      case Err(e) => Err(e)
      case Ok(ps) => Ok(BagOf(ps))
  }

  function Special(delimiter: char): set<char> {
    {'=', delimiter}
  }

  function RenderPair(p: Pair, delimiter: char): string {
    Escape(p.0, Special(delimiter)) + "=" + Escape(p.1, Special(delimiter))
  }

  function Render(ps: seq<Pair>, delimiter: char): string {
    if ps == [] then ""
    else RenderPair(ps[0], delimiter) + if |ps| == 1 then "" else [delimiter] + Render(ps[1..], delimiter)
  }

  predicate Delimiter(c: char) { c != '=' && c != '\\' }

  predicate KeysNonEmpty(ps: seq<Pair>) {
    forall i :: 0 <= i < |ps| ==> ps[i].0 != ""
  }

  lemma Cat(a: string, b: string, c: string)
    ensures a + b + c == a + (b + c)
  {
  }

  lemma DropPast(a: string, c: char, b: string)
    ensures (a + ([c] + b))[|a|] == c && (a + ([c] + b))[|a| + 1..] == b
  {
  }

  /** One key, an equals sign, one value: the rest of the parse starts after the next delimiter. */
  lemma ParseHead(k: string, v: string, tail: string, p: Pair, delimiter: char)
    requires Delimiter(delimiter) && (tail == "" || tail[0] == delimiter)
    requires Index(k + ("=" + (v + tail)), {'=', delimiter}) == Found(|k|, p.0)
    requires Index(v + tail, {delimiter}) == Found(|v|, p.1)
    ensures ParsePairs(k + ("=" + (v + tail)), delimiter) ==
            if p.0 == "" then Err(EmptyKey)
            else if tail == "" then Ok([p])
            else Cons(p, ParsePairs(tail[1..], delimiter))
  {
    DropPast(k, '=', v + tail);
    assert ParsePairs(k + ("=" + (v + tail)), delimiter) == ParseValue(p.0, v + tail, delimiter);
    ValueHead(v, tail, p, delimiter);
  }

  lemma ValueHead(v: string, tail: string, p: Pair, delimiter: char)
    requires tail == "" || tail[0] == delimiter
    requires Index(v + tail, {delimiter}) == Found(|v|, p.1)
    ensures ParseValue(p.0, v + tail, delimiter) ==
            if p.0 == "" then Err(EmptyKey)
            else if tail == "" then Ok([p])
            else Cons(p, ParsePairs(tail[1..], delimiter))
  {
    if tail != "" {
      DropInto(v, tail);
      assert Index(v + tail, {delimiter}).offset != |v + tail|;
    } else {
      assert |v + tail| == |v|;
    }
  }

  lemma DropInto(a: string, b: string)
    requires b != ""
    ensures (a + b)[|a| + 1..] == b[1..]
  {
  }

  lemma ParseRenderedPair(p: Pair, tail: string, delimiter: char)
    requires Delimiter(delimiter) && (tail == "" || tail[0] == delimiter)
    ensures ParsePairs(RenderPair(p, delimiter) + tail, delimiter) ==
            if p.0 == "" then Err(EmptyKey)
            else if tail == "" then Ok([p])
            else Cons(p, ParsePairs(tail[1..], delimiter))
  {
    var k, v := Escape(p.0, Special(delimiter)), Escape(p.1, Special(delimiter));
    IndexUndoesEscape(p.0, Special(delimiter), {'=', delimiter}, "=" + (v + tail));
    IndexUndoesEscape(p.1, Special(delimiter), {delimiter}, tail);
    ParseHead(k, v, tail, p, delimiter);
    Cat(k + "=", v, tail);
    Cat(k, "=", v + tail);
  }

  lemma {:induction false} ParseUndoesRender(ps: seq<Pair>, delimiter: char)
    requires Delimiter(delimiter) && ps != [] && KeysNonEmpty(ps)
    ensures ParsePairs(Render(ps, delimiter), delimiter) == Ok(ps)
  {
    if |ps| == 1 {
      ParseRenderedPair(ps[0], "", delimiter);
      assert ps == [ps[0]];
    } else {
      var tail := [delimiter] + Render(ps[1..], delimiter);
      ParseRenderedPair(ps[0], tail, delimiter);
      assert tail[1..] == Render(ps[1..], delimiter);
      ParseUndoesRender(ps[1..], delimiter);
      assert [ps[0]] + ps[1..] == ps;
    }
  }

  /** Joining two accepted strings with the delimiter joins their pairs. */
  lemma {:induction false} ParsePairsConcat(s: string, t: string, delimiter: char)
    requires Delimiter(delimiter) && ParsePairs(s, delimiter).Ok? && ParsePairs(t, delimiter).Ok?
    ensures ParsePairs(s + ([delimiter] + t), delimiter) == Ok(ParsePairs(s, delimiter).value + ParsePairs(t, delimiter).value)
    decreases |s|
  {
    var more := [delimiter] + t;
    PairsHead(s, more, delimiter);
    var head := Index(s, {'=', delimiter});
    ParseValueConcat(head.text, s[head.offset + 1..], t, delimiter);
  }

  /** The key of the first pair ends at its equals sign, whatever follows. */
  lemma PairsHead(s: string, more: string, delimiter: char)
    requires Delimiter(delimiter) && ParsePairs(s, delimiter).Ok?
    ensures var head := Index(s, {'=', delimiter});
            && head.Found? && head.offset < |s|
            && ParsePairs(s, delimiter) == ParseValue(head.text, s[head.offset + 1..], delimiter)
            && ParsePairs(s + more, delimiter) == ParseValue(head.text, s[head.offset + 1..] + more, delimiter)
  {
    IndexExtend(s, {'=', delimiter}, more);
    TakeDrop(s, Index(s, {'=', delimiter}).offset, more);
  }

  lemma {:induction false} ParseValueConcat(key: string, s: string, t: string, delimiter: char)
    requires Delimiter(delimiter) && ParseValue(key, s, delimiter).Ok? && ParsePairs(t, delimiter).Ok?
    ensures ParseValue(key, s + ([delimiter] + t), delimiter)
         == Ok(ParseValue(key, s, delimiter).value + ParsePairs(t, delimiter).value)
    decreases |s|
  {
    var r := Index(s, {delimiter});
    ValueExtend(key, s, [delimiter] + t, delimiter);
    if r.offset != |s| {
      var rest := s[r.offset + 1..];
      ParsePairsConcat(rest, t, delimiter);
      ConsOk((key, r.text), ParsePairs(rest, delimiter).value, ParsePairs(t, delimiter).value);
    } else {
      assert ([delimiter] + t)[1..] == t;
    }
  }

  lemma ConsOk(p: Pair, a: seq<Pair>, b: seq<Pair>)
    ensures Cons(p, Ok(a + b)) == Ok([p] + a + b) && Cons(p, Ok(a)) == Ok([p] + a)
  {
    assert [p] + (a + b) == [p] + a + b;
  }

  /** The first value ends at its delimiter, or at what a continuation adds. */
  lemma ValueExtend(key: string, s: string, more: string, delimiter: char)
    requires ParseValue(key, s, delimiter).Ok? && more != "" && more[0] == delimiter
    ensures var r := Index(s, {delimiter});
            && r.Found? && key != ""
            && (r.offset == |s| ==>
                  && ParseValue(key, s, delimiter) == Ok([(key, r.text)])
                  && ParseValue(key, s + more, delimiter) == Cons((key, r.text), ParsePairs(more[1..], delimiter)))
            && (r.offset != |s| ==>
                  && ParseValue(key, s, delimiter) == Cons((key, r.text), ParsePairs(s[r.offset + 1..], delimiter))
                  && ParseValue(key, s + more, delimiter) == Cons((key, r.text), ParsePairs(s[r.offset + 1..] + more, delimiter)))
  {
    var r := Index(s, {delimiter});
    IndexExtend(s, {delimiter}, more);
    if r.offset == |s| {
      DropInto(s, more);
    } else {
      TakeDrop(s, r.offset, more);
    }
  }

  lemma TakeDrop(s: string, i: nat, more: string)
    requires i < |s|
    ensures (s + more)[i] == s[i] && (s + more)[i + 1..] == s[i + 1..] + more
  {
  }

  /** Parsing is a homomorphism: the joined string parses to the merged bag. */
  lemma ParseConcat(s: string, t: string, delimiter: char)
    requires Delimiter(delimiter) && s != "" && t != "" && Parse(s, delimiter).Ok? && Parse(t, delimiter).Ok?
    ensures Parse(s + [delimiter] + t, delimiter) == Ok(Merge(Parse(s, delimiter).value, Parse(t, delimiter).value))
  {
    ParsePairsConcat(s, t, delimiter);
    Cat(s, [delimiter], t);
    BagAppend(ParsePairs(s, delimiter).value, ParsePairs(t, delimiter).value);
  }

  // ----------------------------------------------------------------- encoding

  /** Lexicographic order of the characters. */
  predicate Less(a: string, b: string) {
    if b == "" then false
    else if a == "" then true
    else a[0] < b[0] || (a[0] == b[0] && Less(a[1..], b[1..]))
  }

  lemma {:induction false} LessTotal(a: string, b: string)
    ensures a == b || Less(a, b) || Less(b, a)
  {
    if a != "" && b != "" && a[0] == b[0] {
      LessTotal(a[1..], b[1..]);
      assert a == [a[0]] + a[1..] && b == [b[0]] + b[1..];
    }
  }

  lemma {:induction false} LessTrans(a: string, b: string, c: string)
    requires Less(a, b) && Less(b, c)
    ensures Less(a, c)
  {
    if a != "" && a[0] == b[0] == c[0] {
      LessTrans(a[1..], b[1..], c[1..]);
    }
  }

  lemma {:induction false} LessIrreflexive(a: string)
    ensures !Less(a, a)
  {
    if a != "" {
      LessIrreflexive(a[1..]);
    }
  }

  /** `a` and `b` agree before position `n`, where `a` ends or has the smaller character. */
  predicate DiffersAt(a: string, b: string, n: nat) {
    n <= |a| && n < |b| && a[..n] == b[..n] && (n == |a| || a[n] < b[n])
  }

  /** The order is that of the first difference. */
  lemma {:induction false} LessIsFirstDifference(a: string, b: string)
    ensures Less(a, b) <==> exists n: nat :: DiffersAt(a, b, n)
  {
    if a == "" && b != "" {
      assert DiffersAt(a, b, 0);
    } else if a != "" && b != "" {
      LessIsFirstDifference(a[1..], b[1..]);
      assert a == [a[0]] + a[1..] && b == [b[0]] + b[1..];
      if a[0] < b[0] {
        assert DiffersAt(a, b, 0);
      }
      forall n: nat | DiffersAt(a[1..], b[1..], n) && a[0] == b[0]
        ensures DiffersAt(a, b, n + 1)
      {
        assert a[..n + 1] == [a[0]] + a[1..][..n] && b[..n + 1] == [b[0]] + b[1..][..n];
      }
      forall n: nat | DiffersAt(a, b, n) && n > 0
        ensures a[0] == b[0] && DiffersAt(a[1..], b[1..], n - 1)
      {
        assert a[0] == a[..n][0] && b[0] == b[..n][0];
        assert a[1..][..n - 1] == a[..n][1..] && b[1..][..n - 1] == b[..n][1..];
      }
    }
  }

  predicate Ascending(keys: seq<string>) {
    forall i, j :: 0 <= i < j < |keys| ==> Less(keys[i], keys[j])
  }

  /** The keys of a bag in ascending order. */
  ghost predicate SortedKeys(bag: Bag, keys: seq<string>) {
    Ascending(keys) && (forall k :: k in keys <==> k in bag)
  }

  /** One key with each of its values. */
  function Row(key: string, values: seq<string>): seq<Pair> {
    if values == [] then [] else [(key, values[0])] + Row(key, values[1..])
  }

  /** All pairs of a bag, key by key. */
  function Rows(keys: seq<string>, bag: Bag): seq<Pair>
    requires forall k :: k in keys ==> k in bag
  {
    if keys == [] then [] else Row(keys[0], bag[keys[0]]) + Rows(keys[1..], bag)
  }

  lemma ValuesOfOne(p: Pair, k: string)
    ensures ValuesOf([p], k) == if p.0 == k then [p.1] else []
  {
    assert [p][..0] == [];
  }

  lemma {:induction false} RowValues(key: string, values: seq<string>, k: string)
    ensures ValuesOf(Row(key, values), k) == if k == key then values else []
    ensures key != "" ==> KeysNonEmpty(Row(key, values))
  {
    if values != [] {
      RowValues(key, values[1..], k);
      ValuesAppend([(key, values[0])], Row(key, values[1..]), k);
      ValuesOfOne((key, values[0]), k);
      assert [values[0]] + values[1..] == values;
    }
  }

  lemma {:induction false} RowsValues(keys: seq<string>, bag: Bag, k: string)
    requires Ascending(keys) && forall x :: x in keys ==> x in bag
    ensures ValuesOf(Rows(keys, bag), k) == if k in keys then bag[k] else []
    ensures "" !in keys ==> KeysNonEmpty(Rows(keys, bag))
  {
    if keys != [] {
      var key := keys[0];
      RowValues(key, bag[key], k);
      RowsValues(keys[1..], bag, k);
      ValuesAppend(Row(key, bag[key]), Rows(keys[1..], bag), k);
      assert key !in keys[1..] by { LessIrreflexive(key); }
      assert k in keys <==> k == key || k in keys[1..];
    }
  }

  /** A bag whose keys and value lists are not empty, the kind parsing produces. */
  predicate Proper(bag: Bag) {
    forall k :: k in bag ==> k != "" && bag[k] != []
  }

  lemma BagOfRows(keys: seq<string>, bag: Bag)
    requires SortedKeys(bag, keys) && Proper(bag)
    ensures BagOf(Rows(keys, bag)) == bag
    ensures KeysNonEmpty(Rows(keys, bag))
    ensures bag != map[] ==> Rows(keys, bag) != []
  {
    var ps := Rows(keys, bag);
    forall k: string
      ensures Get(BagOf(ps), k) == Get(bag, k)
      ensures k in BagOf(ps) <==> k in bag
    {
      RowsValues(keys, bag, k);
      BagHoldsValues(ps, k);
    }
    RowsValues(keys, bag, "");
  }

  /** A bag is recovered from its encoding, value order included, exactly when it is proper. */
  lemma RoundTrip(bag: Bag, keys: seq<string>, delimiter: char)
    requires SortedKeys(bag, keys) && Delimiter(delimiter)
    ensures Parse(Render(Rows(keys, bag), delimiter), delimiter) == Ok(bag) <==> Proper(bag)
  {
    ParsedIsProper(Render(Rows(keys, bag), delimiter), delimiter);
    if Proper(bag) {
      BagOfRows(keys, bag);
      var ps := Rows(keys, bag);
      assert keys != [] ==> keys[0] in keys;
      if bag != map[] {
        ParseUndoesRender(ps, delimiter);
        assert '=' in RenderPair(ps[0], delimiter);
      }
    }
  }

  /** Parsing never gives an empty key or an empty value list. */
  lemma ParsedIsProper(s: string, delimiter: char)
    ensures Parse(s, delimiter).Ok? ==> Proper(Parse(s, delimiter).value)
  {
    if s != "" && ParsePairs(s, delimiter).Ok? {
      ParsedPairsProper(s, delimiter);
      BagOfProper(ParsePairs(s, delimiter).value);
    }
  }

  lemma {:induction false} ParsedPairsProper(s: string, delimiter: char)
    requires ParsePairs(s, delimiter).Ok?
    ensures ParsePairs(s, delimiter).value != [] && KeysNonEmpty(ParsePairs(s, delimiter).value)
    decreases |s|
  {
    var rest := s[Index(s, {'=', delimiter}).offset + 1..];
    var end := Index(rest, {delimiter}).offset;
    if end != |rest| {
      ParsedPairsProper(rest[end + 1..], delimiter);
    }
  }

  lemma {:induction false} BagOfProper(ps: seq<Pair>)
    requires KeysNonEmpty(ps)
    ensures Proper(BagOf(ps))
  {
    if ps != [] {
      BagOfProper(ps[..|ps| - 1]);
    }
  }

  /** Re-encoding what was parsed and parsing it again changes nothing. */
  lemma ParseEncodeParse(s: string, keys: seq<string>, delimiter: char)
    requires Delimiter(delimiter) && Parse(s, delimiter).Ok?
    requires SortedKeys(Parse(s, delimiter).value, keys)
    ensures Parse(Render(Rows(keys, Parse(s, delimiter).value), delimiter), delimiter) == Parse(s, delimiter)
  {
    ParsedIsProper(s, delimiter);
    RoundTrip(Parse(s, delimiter).value, keys, delimiter);
  }

  // ------------------------------------------------------------------- SMETHOD

  const ARGS_PREFIX: string := "ARGS:"

  function StripPrefix(s: string): string {
    if ARGS_PREFIX <= s then s[|ARGS_PREFIX|..] else s
  }

  function ParseSmethod(s: string): Result<Bag> {
    Parse(StripPrefix(s), ',')
  }

  /** One prefix is taken off where there is one, and nothing else. */
  lemma SmethodReads(s: string)
    ensures ParseSmethod(ARGS_PREFIX + s) == Parse(s, ',')
    ensures !(ARGS_PREFIX <= s) ==> ParseSmethod(s) == Parse(s, ',')
  {
    assert (ARGS_PREFIX + s)[|ARGS_PREFIX|..] == s;
  }

  lemma SmethodRoundTrip(bag: Bag, keys: seq<string>)
    requires SortedKeys(bag, keys)
    ensures ParseSmethod(ARGS_PREFIX + Render(Rows(keys, bag), ',')) == Ok(bag) <==> Proper(bag)
  {
    SmethodReads(Render(Rows(keys, bag), ','));
    RoundTrip(bag, keys, ',');
  }

  /** Without the prefix a proper bag is recovered exactly when its encoding does not itself begin with the prefix. */
  lemma BareSmethodRoundTrip(bag: Bag, keys: seq<string>)
    requires SortedKeys(bag, keys)
    ensures var encoded := Render(Rows(keys, bag), ',');
            ParseSmethod(encoded) == Ok(bag) <==> Proper(bag) && !(ARGS_PREFIX <= encoded)
  {
    RoundTrip(bag, keys, ',');
    var ps := Rows(keys, bag);
    ParsedIsProper(StripPrefix(Render(ps, ',')), ',');
    if Proper(bag) && ARGS_PREFIX <= Render(ps, ',') {
      BagOfRows(keys, bag);
      StrippedEncoding(ps);
      StrippedDiffers(ps);
    }
  }

  /** A text without special characters is its own escaped form. */
  lemma {:induction false} PlainEscape(x: string, special: set<char>)
    requires forall c :: c in x ==> c != '\\' && c !in special
    ensures Escape(x, special) == x
  {
    if x != "" {
      assert x[0] in x && forall c :: c in x[1..] ==> c in x;
      PlainEscape(x[1..], special);
      assert [x[0]] + x[1..] == x;
    }
  }

  lemma RenderOne(key: string, value: string, delimiter: char)
    requires forall c :: c in key + value ==> c != '\\' && c !in Special(delimiter)
    ensures Render([(key, value)], delimiter) == key + "=" + value
  {
    assert forall c :: c in key || c in value ==> c in key + value;
    PlainEscape(key, Special(delimiter));
    PlainEscape(value, Special(delimiter));
  }

  /** A bag for which the bare form fails: the prefix is taken off its key, and another bag comes back. */
  lemma BareSmethodFails()
    ensures var bag: Bag := map["ARGS:x" := ["v"]];
            && SortedKeys(bag, ["ARGS:x"]) && Proper(bag)
            && Render(Rows(["ARGS:x"], bag), ',') == "ARGS:x=v"
            && ParseSmethod("ARGS:x=v") == Ok(map["x" := ["v"]])
  {
    OneRow("ARGS:x", "v");
    RenderOne("ARGS:x", "v", ',');
    assert "ARGS:x" + "=" + "v" == "ARGS:x=v";
    PrefixTakenOff();
  }

  lemma OneRow(key: string, value: string)
    ensures Rows([key], map[key := [value]]) == [(key, value)]
  {
    assert [key][1..] == [] && [value][1..] == [];
    assert Row(key, [value]) == [(key, value)];
  }

  lemma PrefixTakenOff()
    ensures ParseSmethod("ARGS:x=v") == Ok(map["x" := ["v"]])
  {
    assert ARGS_PREFIX <= "ARGS:x=v" && "ARGS:x=v"[5..] == "x=v";
    RenderOne("x", "v", ',');
    assert "x" + "=" + "v" == "x=v";
    ParseOne("x", "v");
  }

  lemma ParseOne(key: string, value: string)
    requires key != "" && Render([(key, value)], ',') != ""
    ensures Parse(Render([(key, value)], ','), ',') == Ok(map[key := [value]])
  {
    var ps := [(key, value)];
    ParseUndoesRender(ps, ',');
    assert ps[..0] == [];
    assert [] + [value] == [value];
    assert BagOf(ps) == Add(BagOf([]), key, value);
  }

  /** With part of its first key cut away, the encoding parses to something else, or not at all. */
  lemma StrippedDiffers(ps: seq<Pair>)
    requires ps != [] && KeysNonEmpty(ps) && ARGS_PREFIX <= ps[0].0
    ensures Parse(Render([(ps[0].0[|ARGS_PREFIX|..], ps[0].1)] + ps[1..], ','), ',') != Ok(BagOf(ps))
  {
    var key := ps[0].0;
    var cut := (key[|ARGS_PREFIX|..], ps[0].1);
    var stripped := [cut] + ps[1..];
    if cut.0 == "" {
      EmptyFirstKey(stripped);
    } else {
      assert KeysNonEmpty(stripped);
      ParseUndoesRender(stripped, ',');
      FewerValues(ps, cut);
    }
  }

  lemma FewerValues(ps: seq<Pair>, other: Pair)
    requires ps != [] && other.0 != ps[0].0
    ensures BagOf([other] + ps[1..]) != BagOf(ps)
  {
    var key, changed := ps[0].0, [other] + ps[1..];
    ValuesAppend([ps[0]], ps[1..], key);
    ValuesAppend([other], ps[1..], key);
    ValuesOfOne(ps[0], key);
    ValuesOfOne(other, key);
    assert [ps[0]] + ps[1..] == ps;
    BagHoldsValues(ps, key);
    BagHoldsValues(changed, key);
    assert |Get(BagOf(changed), key)| < |Get(BagOf(ps), key)|;
  }

  lemma EmptyFirstKey(ps: seq<Pair>)
    requires ps != [] && ps[0].0 == ""
    ensures Parse(Render(ps, ','), ',').Err?
  {
    ParseRenderedPair(ps[0], if |ps| == 1 then "" else [','] + Render(ps[1..], ','), ',');
  }

  /** An encoding that begins with the prefix does so because its first key does. */
  lemma StrippedEncoding(ps: seq<Pair>)
    requires ARGS_PREFIX <= Render(ps, ',')
    ensures ps != [] && ARGS_PREFIX <= ps[0].0
    ensures var stripped := [(ps[0].0[|ARGS_PREFIX|..], ps[0].1)] + ps[1..];
            Render(ps, ',')[|ARGS_PREFIX|..] == Render(stripped, ',')
  {
    var key := ps[0].0;
    var special := Special(',');
    var after := "=" + Escape(ps[0].1, special) + (if |ps| == 1 then "" else [','] + Render(ps[1..], ','));
    RenderFront(ps);
    PlainPrefix(ARGS_PREFIX, key, special, after);
    var stripped := [(key[|ARGS_PREFIX|..], ps[0].1)] + ps[1..];
    RenderFront(stripped);
    assert stripped[1..] == ps[1..];
  }

  lemma RenderFront(ps: seq<Pair>)
    requires ps != []
    ensures Render(ps, ',') == Escape(ps[0].0, Special(','))
                               + ("=" + Escape(ps[0].1, Special(',')) + (if |ps| == 1 then "" else [','] + Render(ps[1..], ',')))
  {
    var k, v := Escape(ps[0].0, Special(',')), Escape(ps[0].1, Special(','));
    var tail := if |ps| == 1 then "" else [','] + Render(ps[1..], ',');
    Cat(k, "=", v);
    Cat(k, "=" + v, tail);
  }

  /** Unescaped text at the front of an encoding is the front of the key. */
  lemma {:induction false} PlainPrefix(x: string, key: string, special: set<char>, after: string)
    requires forall c :: c in x ==> c != '\\' && c !in special
    requires after != "" && after[0] in special
    requires x <= Escape(key, special) + after
    ensures x <= key
    ensures (Escape(key, special) + after)[|x|..] == Escape(key[|x|..], special) + after
  {
    if x != "" {
      assert x[0] in x;
      PlainHead(x, key, special, after);
      var rest := Escape(key[1..], special) + after;
      PrefixCons(x, key[0], rest);
      PlainPrefix(x[1..], key[1..], special, after);
      DropCons(key[0], rest, |x| - 1);
      assert key[1..][|x| - 1..] == key[|x|..];
      assert x == [x[0]] + x[1..] && key == [key[0]] + key[1..];
    }
  }

  /** A plain first character was not escaped, so it is the key's. */
  lemma PlainHead(x: string, key: string, special: set<char>, after: string)
    requires x != "" && x[0] != '\\' && x[0] !in special
    requires after != "" && after[0] in special
    requires x <= Escape(key, special) + after
    ensures key != "" && key[0] == x[0]
    ensures Escape(key, special) + after == [key[0]] + (Escape(key[1..], special) + after)
  {
    assert Escape("", special) + after == after;
    assert x[0] == (Escape(key, special) + after)[0];
    Cat(EscapedChar(key[0], special), Escape(key[1..], special), after);
  }

  lemma PrefixCons(x: string, c: char, rest: string)
    requires x != "" && x <= [c] + rest
    ensures x[1..] <= rest && (forall d :: d in x[1..] ==> d in x)
  {
    assert ([c] + rest)[1..] == rest;
  }

  lemma DropCons(c: char, t: string, n: nat)
    requires n <= |t|
    ensures ([c] + t)[n + 1..] == t[n..]
  {
  }

  // ------------------------------------------------- server transport options

  type Opts = map<string, Bag>
  datatype ServerOption = ServerOption(transport: string, key: string, value: string)

  function GetOpts(o: Opts, name: string): Bag {
    if name in o then o[name] else map[]
  }

  function AddOption(o: Opts, t: ServerOption): Opts {
    o[t.transport := Add(GetOpts(o, t.transport), t.key, t.value)]
  }

  function OptsOf(ts: seq<ServerOption>): Opts {
    if ts == [] then map[]
    else
      AddOption(OptsOf(ts[..|ts| - 1]), ts[|ts| - 1])
  }

  function MergeOpts(a: Opts, b: Opts): Opts {
    map n | n in a.Keys + b.Keys :: Merge(GetOpts(a, n), GetOpts(b, n))
  }

  function ConsOption(t: ServerOption, r: Result<seq<ServerOption>>): Result<seq<ServerOption>> {
    match r
    case Err(e) => Err(e)
    case Ok(ts) => Ok([t] + ts)
  }

  function ParseOptions(s: string): Result<seq<ServerOption>>
    decreases |s|
  {
    match Index(s, {':', '=', ';'})
    case Dangling => Err(DanglingEscape)
    case Found(offset, name) =>
      if offset >= |s| || s[offset] != ':' then Err(NoColon)
      else ParseOptionKey(name, s[offset + 1..])
  }

  function ParseOptionKey(name: string, s: string): Result<seq<ServerOption>>
    decreases |s|
  {
    match Index(s, {'=', ';'})
    case Dangling => Err(DanglingEscape)
    case Found(offset, key) =>
      if offset >= |s| || s[offset] != '=' then Err(NoEquals)
      else ParseOptionValue(name, key, s[offset + 1..])
  }

  function ParseOptionValue(name: string, key: string, s: string): Result<seq<ServerOption>>
    decreases |s|
  {
    match Index(s, {';'})
    case Dangling => Err(DanglingEscape)
    case Found(end, value) =>
      if name == "" then Err(EmptyMethod)
      else if key == "" then Err(EmptyKey)
      else if end == |s| then Ok([ServerOption(name, key, value)])
      else ConsOption(ServerOption(name, key, value), ParseOptions(s[end + 1..]))
  }

  /** `parse_server_transport_options`. */
  function ParseOpts(s: string): Result<Opts> {
    if s == "" then Ok(map[])
    else
      match ParseOptions(s)
      case Err(e) => Err(e)
      case Ok(ts) => Ok(OptsOf(ts))
  }

  lemma {:induction false} OptionsConcat(s: string, t: string)
    requires ParseOptions(s).Ok? && ParseOptions(t).Ok?
    ensures ParseOptions(s + ([';'] + t)) == Ok(ParseOptions(s).value + ParseOptions(t).value)
    decreases |s|
  {
    var more := [';'] + t;
    OptionHead(s, more);
    var name := Index(s, {':', '=', ';'});
    var rest := s[name.offset + 1..];
    OptionKeyHead(name.text, rest, more);
    var key := Index(rest, {'=', ';'});
    OptionValueConcat(name.text, key.text, rest[key.offset + 1..], t);
  }

  /** The transport of the first option ends at its colon, whatever follows. */
  lemma OptionHead(s: string, more: string)
    requires ParseOptions(s).Ok?
    ensures var name := Index(s, {':', '=', ';'});
            && name.Found? && name.offset < |s|
            && ParseOptions(s) == ParseOptionKey(name.text, s[name.offset + 1..])
            && ParseOptions(s + more) == ParseOptionKey(name.text, s[name.offset + 1..] + more)
  {
    IndexExtend(s, {':', '=', ';'}, more);
    TakeDrop(s, Index(s, {':', '=', ';'}).offset, more);
  }

  lemma OptionKeyHead(name: string, s: string, more: string)
    requires ParseOptionKey(name, s).Ok?
    ensures var key := Index(s, {'=', ';'});
            && key.Found? && key.offset < |s|
            && ParseOptionKey(name, s) == ParseOptionValue(name, key.text, s[key.offset + 1..])
            && ParseOptionKey(name, s + more) == ParseOptionValue(name, key.text, s[key.offset + 1..] + more)
  {
    IndexExtend(s, {'=', ';'}, more);
    TakeDrop(s, Index(s, {'=', ';'}).offset, more);
  }

  lemma {:induction false} OptionValueConcat(name: string, key: string, s: string, t: string)
    requires ParseOptionValue(name, key, s).Ok? && ParseOptions(t).Ok?
    ensures ParseOptionValue(name, key, s + ([';'] + t)) == Ok(ParseOptionValue(name, key, s).value + ParseOptions(t).value)
    decreases |s|
  {
    var r := Index(s, {';'});
    IndexExtend(s, {';'}, [';'] + t);
    if r.offset == |s| {
      DropPast(s, ';', t);
    } else {
      TakeDrop(s, r.offset, [';'] + t);
      OptionsConcat(s[r.offset + 1..], t);
      var head, ts := [ServerOption(name, key, r.text)], ParseOptions(s[r.offset + 1..]).value;
      assert head + (ts + ParseOptions(t).value) == head + ts + ParseOptions(t).value;
    }
  }

  /** The pairs given for one transport, in order. */
  function PairsFor(ts: seq<ServerOption>, name: string): seq<Pair> {
    if ts == [] then []
    else
      var t := ts[|ts| - 1];
      PairsFor(ts[..|ts| - 1], name) + if t.transport == name then [(t.key, t.value)] else []
  }

  lemma {:induction false} OptsHoldBags(ts: seq<ServerOption>, name: string)
    ensures GetOpts(OptsOf(ts), name) == BagOf(PairsFor(ts, name))
    ensures name in OptsOf(ts) <==> PairsFor(ts, name) != []
  {
    if ts != [] {
      OptsHoldBags(ts[..|ts| - 1], name);
      BagSnoc(PairsFor(ts[..|ts| - 1], name), (ts[|ts| - 1].key, ts[|ts| - 1].value));
    }
  }

  lemma BagSnoc(ps: seq<Pair>, p: Pair)
    ensures BagOf(ps + [p]) == Add(BagOf(ps), p.0, p.1)
    ensures ps + [] == ps
  {
    assert (ps + [p])[..|ps|] == ps;
  }

  lemma {:induction false} PairsForAppend(a: seq<ServerOption>, b: seq<ServerOption>, name: string)
    ensures PairsFor(a + b, name) == PairsFor(a, name) + PairsFor(b, name)
  {
    if b == [] {
      assert a + b == a;
    } else {
      var n := |b| - 1;
      PairsForAppend(a, b[..n], name);
      assert (a + b)[..|a| + n] == a + b[..n];
    }
  }

  lemma OptsAppend(a: seq<ServerOption>, b: seq<ServerOption>)
    ensures OptsOf(a + b) == MergeOpts(OptsOf(a), OptsOf(b))
  {
    forall n: string
      ensures GetOpts(OptsOf(a + b), n) == Merge(GetOpts(OptsOf(a), n), GetOpts(OptsOf(b), n))
      ensures n in OptsOf(a + b) <==> n in OptsOf(a) || n in OptsOf(b)
    {
      PairsForAppend(a, b, n);
      BagAppend(PairsFor(a, n), PairsFor(b, n));
      OptsHoldBags(a, n);
      OptsHoldBags(b, n);
      OptsHoldBags(a + b, n);
    }
  }

  /** Option strings joined by a semicolon parse to the merge, transport by transport and key by key. */
  lemma OptsConcat(s: string, t: string)
    requires s != "" && t != "" && ParseOpts(s).Ok? && ParseOpts(t).Ok?
    ensures ParseOpts(s + [';'] + t) == Ok(MergeOpts(ParseOpts(s).value, ParseOpts(t).value))
  {
    OptionsConcat(s, t);
    Cat(s, [';'], t);
    OptsAppend(ParseOptions(s).value, ParseOptions(t).value);
  }

  // ---------------------------------------------------- every spelling of a text

  /** One character as it may be written: with a backslash in front or without. */
  datatype Unit = Unit(escaped: bool, c: char)

  function Spell(us: seq<Unit>): string {
    if us == [] then ""
    else (if us[0].escaped then ['\\', us[0].c] else [us[0].c]) + Spell(us[1..])
  }

  function TextOf(us: seq<Unit>): string {
    if us == [] then "" else [us[0].c] + TextOf(us[1..])
  }

  /** What is written without a backslash is neither a backslash nor a terminator. */
  predicate Safe(us: seq<Unit>, terms: set<char>) {
    forall i :: 0 <= i < |us| && !us[i].escaped ==> us[i].c != '\\' && us[i].c !in terms
  }

  /** Where a spelled text can end: at the end of the string, at a terminator, or at a lone last backslash. */
  predicate Closes(rest: string, terms: set<char>) {
    rest == "" || rest == "\\" || rest[0] in terms
  }

  /** However a text is spelled, scanning gives the text and its extent, unless a lone backslash ends it. */
  lemma {:induction false} SpelledIndex(us: seq<Unit>, terms: set<char>, rest: string)
    requires Safe(us, terms) && '\\' !in terms && Closes(rest, terms)
    ensures Index(Spell(us) + rest, terms) == if rest == "\\" then Dangling else Found(|Spell(us)|, TextOf(us))
  {
    if us == [] {
      assert Spell(us) + rest == rest;
    } else {
      var u, shorter := us[0], Spell(us[1..]);
      SpelledIndex(us[1..], terms, rest);
      Cat(if u.escaped then ['\\', u.c] else [u.c], shorter, rest);
      if u.escaped {
        IndexEscaped(u.c, shorter + rest, terms);
      } else {
        IndexPlain(u.c, shorter + rest, terms);
      }
    }
  }

  /** Every string is such a spelling up to where the scan ends. */
  lemma {:induction false} EveryStringIsSpelled(s: string, terms: set<char>) returns (us: seq<Unit>, rest: string)
    ensures s == Spell(us) + rest && Safe(us, terms) && Closes(rest, terms)
    decreases |s|
  {
    if Closes(s, terms) {
      us, rest := [], s;
      assert s == "" + s;
    } else {
      var escaped := s[0] == '\\';
      var tail;
      tail, rest := EveryStringIsSpelled(if escaped then s[2..] else s[1..], terms);
      us := [Unit(escaped, if escaped then s[1] else s[0])] + tail;
      assert us[1..] == tail;
      Cat(if escaped then [s[0], s[1]] else [s[0]], Spell(tail), rest);
      assert s == (if escaped then [s[0], s[1]] + s[2..] else [s[0]] + s[1..]);
    }
  }

  /** How escaping spells a text: with a backslash exactly where one is needed. */
  function UnitsOf(x: string, special: set<char>): seq<Unit> {
    seq(|x|, i requires 0 <= i < |x| => Unit(x[i] == '\\' || x[i] in special, x[i]))
  }

  lemma {:induction false} EscapeSpells(x: string, special: set<char>)
    ensures Escape(x, special) == Spell(UnitsOf(x, special)) && TextOf(UnitsOf(x, special)) == x
    ensures Safe(UnitsOf(x, special), special)
  {
    if x != "" {
      EscapeSpells(x[1..], special);
      assert UnitsOf(x, special)[1..] == UnitsOf(x[1..], special);
      assert x == [x[0]] + x[1..];
    }
  }

  /** A pair in any spelling, its value free to hold equals signs, is read back exactly. */
  lemma SpelledPair(key: seq<Unit>, value: seq<Unit>, tail: string, delimiter: char)
    requires Delimiter(delimiter) && Safe(key, {'=', delimiter}) && Safe(value, {delimiter}) && Closes(tail, {delimiter})
    ensures ParsePairs(Spell(key) + ("=" + (Spell(value) + tail)), delimiter) ==
            if tail == "\\" then Err(DanglingEscape)
            else if key == [] then Err(EmptyKey)
            else if tail == "" then Ok([(TextOf(key), TextOf(value))])
            else Cons((TextOf(key), TextOf(value)), ParsePairs(tail[1..], delimiter))
  {
    var k, v := Spell(key), Spell(value);
    SpelledIndex(key, {'=', delimiter}, "=" + (v + tail));
    SpelledIndex(value, {delimiter}, tail);
    DropPast(k, '=', v + tail);
    assert ParsePairs(k + ("=" + (v + tail)), delimiter) == ParseValue(TextOf(key), v + tail, delimiter);
    if tail != "\\" {
      ValueHead(v, tail, (TextOf(key), TextOf(value)), delimiter);
    }
  }

  // ------------------------------------------------------------ rejected forms

  /** A key with no equals sign before the next delimiter is rejected, whatever the key and whatever follows. */
  lemma KeyWithoutEquals(key: seq<Unit>, tail: string, delimiter: char)
    requires Delimiter(delimiter) && Safe(key, {'=', delimiter}) && Closes(tail, {delimiter})
    ensures ParsePairs(Spell(key) + tail, delimiter) == if tail == "\\" then Err(DanglingEscape) else Err(NoEquals)
  {
    SpelledIndex(key, {'=', delimiter}, tail);
  }

  /** An option needs a colon after its transport, and an equals sign after its key. */
  lemma OptionWithoutParts(name: seq<Unit>, key: seq<Unit>, tail: string)
    requires Safe(name, {':', '=', ';'}) && Safe(key, {'=', ';'})
    ensures Closes(tail, {'=', ';'}) ==>
              ParseOptions(Spell(name) + tail) == if tail == "\\" then Err(DanglingEscape) else Err(NoColon)
    ensures Closes(tail, {';'}) ==>
              ParseOptions(Spell(name) + (":" + (Spell(key) + tail))) == if tail == "\\" then Err(DanglingEscape) else Err(NoEquals)
  {
    if Closes(tail, {'=', ';'}) {
      SpelledIndex(name, {':', '=', ';'}, tail);
    }
    if Closes(tail, {';'}) {
      SpelledName(name, Spell(key) + tail);
      SpelledIndex(key, {'=', ';'}, tail);
    }
  }

  /** An option in any spelling is read back exactly, and rejected exactly when its transport or key is empty. */
  lemma OptionReadBack(name: seq<Unit>, key: seq<Unit>, value: seq<Unit>, tail: string)
    requires Safe(name, {':', '=', ';'}) && Safe(key, {'=', ';'}) && Safe(value, {';'}) && Closes(tail, {';'})
    ensures var t := ServerOption(TextOf(name), TextOf(key), TextOf(value));
            ParseOptions(Spell(name) + (":" + (Spell(key) + ("=" + (Spell(value) + tail))))) ==
            if tail == "\\" then Err(DanglingEscape)
            else if name == [] then Err(EmptyMethod)
            else if key == [] then Err(EmptyKey)
            else if tail == "" then Ok([t])
            else ConsOption(t, ParseOptions(tail[1..]))
  {
    var rest := Spell(value) + tail;
    SpelledName(name, Spell(key) + ("=" + rest));
    SpelledKey(TextOf(name), key, rest);
    SpelledValue(name, key, value, tail);
  }

  lemma SpelledName(name: seq<Unit>, rest: string)
    requires Safe(name, {':', '=', ';'})
    ensures ParseOptions(Spell(name) + (":" + rest)) == ParseOptionKey(TextOf(name), rest)
  {
    var n := Spell(name);
    SpelledIndex(name, {':', '=', ';'}, ":" + rest);
    DropPast(n, ':', rest);
    assert Index(n + (":" + rest), {':', '=', ';'}) == Found(|n|, TextOf(name));
  }

  lemma SpelledKey(name: string, key: seq<Unit>, rest: string)
    requires Safe(key, {'=', ';'})
    ensures ParseOptionKey(name, Spell(key) + ("=" + rest)) == ParseOptionValue(name, TextOf(key), rest)
  {
    SpelledIndex(key, {'=', ';'}, "=" + rest);
    DropPast(Spell(key), '=', rest);
  }

  lemma SpelledValue(name: seq<Unit>, key: seq<Unit>, value: seq<Unit>, tail: string)
    requires Safe(value, {';'}) && Closes(tail, {';'})
    ensures var t := ServerOption(TextOf(name), TextOf(key), TextOf(value));
            ParseOptionValue(TextOf(name), TextOf(key), Spell(value) + tail) ==
            if tail == "\\" then Err(DanglingEscape)
            else if name == [] then Err(EmptyMethod)
            else if key == [] then Err(EmptyKey)
            else if tail == "" then Ok([t])
            else ConsOption(t, ParseOptions(tail[1..]))
  {
    SpelledIndex(value, {';'}, tail);
    if tail != "" {
      DropInto(Spell(value), tail);
    }
  }
}
