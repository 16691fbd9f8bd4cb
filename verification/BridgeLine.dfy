/** Bridge lines: parsing the torrc form and printing it back. */
module BridgeLine {
  import opened Bytes
  import A = Args

  /** The socket-address type of the platform, with its text form. */
  datatype AddrText<!Addr(!new)> = AddrText(parse: string -> Option<Addr>, show: Addr -> string)

  /** Printing inverts parsing, and prints a colon and no whitespace. */
  ghost predicate Lawful<Addr(!new)>(t: AddrText<Addr>) {
    forall a: Addr :: t.parse(t.show(a)) == Some(a) && ':' in t.show(a) && Clean(t.show(a))
  }

  datatype Bridge<Addr> = Bridge(transport: Option<string>, addr: Addr, fingerprint: Option<string>, params: map<string, string>)

  datatype ParseError =
    | Empty
    | MissingAddress
    | InvalidAddress(addr: string)
    | InvalidParam(token: string)
    | InvalidTransport(name: string)
    | DuplicateFingerprint

  datatype Result<+T> = Ok(value: T) | Err(error: ParseError)

  // -------------------------------------------------------------------- tokens

  predicate IsSpace(c: char) { c == ' ' || c == '\t' || c == '\n' || c == '\r' || c == '\U{0C}' }

  predicate Clean(s: string) { forall i :: 0 <= i < |s| ==> !IsSpace(s[i]) }

  function WordLength(s: string): (n: nat)
    ensures n <= |s| && Clean(s[..n])
    ensures n < |s| ==> IsSpace(s[n])
    ensures s != "" && !IsSpace(s[0]) ==> n > 0
  {
    if s == "" || IsSpace(s[0]) then 0 else 1 + WordLength(s[1..])
  }

  /** `split_ascii_whitespace`. */
  function Tokens(s: string): (ts: seq<string>)
    ensures forall t :: t in ts ==> t != "" && Clean(t)
    decreases |s|
  {
    if s == "" then []
    else if IsSpace(s[0]) then Tokens(s[1..])
    else [s[..WordLength(s)]] + Tokens(s[WordLength(s)..])
  }

  function Join(ts: seq<string>): string {
    if ts == [] then "" else if |ts| == 1 then ts[0] else ts[0] + ([' '] + Join(ts[1..]))
  }

  lemma {:induction false} WordThenSpace(w: string, rest: string)
    requires Clean(w) && (rest == "" || IsSpace(rest[0]))
    ensures WordLength(w + rest) == |w|
  {
    if w == "" {
      assert w + rest == rest;
    } else {
      WordThenSpace(w[1..], rest);
      assert (w + rest)[1..] == w[1..] + rest;
    }
  }

  lemma TokensOfWord(w: string, rest: string)
    requires w != "" && Clean(w) && (rest == "" || IsSpace(rest[0]))
    ensures Tokens(w + rest) == [w] + Tokens(rest)
  {
    WordThenSpace(w, rest);
    assert (w + rest)[..|w|] == w && (w + rest)[|w|..] == rest;
  }

  const WHITESPACE: string := " \t\n\r\U{0C}"

  /** Every kind of ASCII whitespace separates words, and no other character does. */
  lemma TokensOfSpace(c: char, t: string)
    ensures c in WHITESPACE ==> Tokens([c] + t) == Tokens(t)
    ensures c !in WHITESPACE ==> Tokens([c]) == [[c]]
  {
    assert WHITESPACE[0] == ' ' && WHITESPACE[1] == '\t' && WHITESPACE[2] == '\n' && WHITESPACE[3] == '\r' && WHITESPACE[4] == '\U{0C}';
    if c in WHITESPACE {
      assert ([c] + t)[1..] == t;
    } else {
      TokensOfWord([c], "");
      assert [c] + "" == [c];
    }
  }

  /** Splitting undoes joining. */
  lemma {:induction false} TokensOfJoin(ts: seq<string>)
    requires forall t :: t in ts ==> t != "" && Clean(t)
    ensures Tokens(Join(ts)) == ts
  {
    if ts != [] {
      var w, rest := ts[0], ts[1..];
      assert w in ts && ts == [w] + rest;
      if rest == [] {
        TokensOfWord(w, "");
        assert w + "" == w;
      } else {
        assert forall t :: t in rest ==> t in ts;
        TokensOfJoin(rest);
        TokensOfSpace(' ', Join(rest));
        TokensOfWord(w, [' '] + Join(rest));
      }
    }
  }

  // ---------------------------------------------------------------- predicates

  predicate IsAlpha(c: char) { 'a' <= c <= 'z' || 'A' <= c <= 'Z' }
  predicate IsDigit(c: char) { '0' <= c <= '9' }
  predicate IsHex(c: char) { IsDigit(c) || 'a' <= c <= 'f' || 'A' <= c <= 'F' }

  function Lower(c: char): char { if 'A' <= c <= 'Z' then c + ' ' else c }
  function Upper(c: char): char { if 'a' <= c <= 'z' then c - ' ' else c }

  function UpperCase(s: string): (r: string)
    ensures |r| == |s|
  {
    seq(|s|, i requires 0 <= i < |s| => Upper(s[i]))
  }

  const BRIDGE: string := "bridge"

  predicate SaysBridge(s: string) {
    |s| == |BRIDGE| && forall i :: 0 <= i < |s| ==> Lower(s[i]) == BRIDGE[i]
  }

  predicate LooksLikeAddress(s: string) { ':' in s }

  predicate ValidTransport(s: string) {
    && s != "" && (IsAlpha(s[0]) || s[0] == '_')
    && forall i :: 1 <= i < |s| ==> IsAlpha(s[i]) || IsDigit(s[i]) || s[i] == '_'
  }

  predicate IsFingerprint(s: string) { |s| == 40 && forall i :: 0 <= i < |s| ==> IsHex(s[i]) }

  /** Index of the first equals sign. */
  function FindEquals(s: string): (r: Option<nat>)
    ensures r.Some? ==> r.value < |s| && s[r.value] == '=' && '=' !in s[..r.value]
    ensures r.None? <==> '=' !in s
  {
    if s == "" then None
    else if s[0] == '=' then Some(0)
    else
      match FindEquals(s[1..])
      case None => None
      case Some(i) =>
        assert s[..i + 1] == [s[0]] + s[1..][..i];
        Some(i + 1)
  }

  lemma {:induction false} FindEqualsAfterKey(k: string, v: string)
    requires '=' !in k
    ensures FindEquals(k + ("=" + v)) == Some(|k|)
  {
    if k == "" {
      assert k + ("=" + v) == "=" + v;
    } else {
      assert '=' !in k[1..];
      FindEqualsAfterKey(k[1..], v);
      assert (k + ("=" + v))[1..] == k[1..] + ("=" + v);
    }
  }

  // ------------------------------------------------------------------- parsing

  datatype Tail = Tail(fingerprint: Option<string>, params: map<string, string>)

  /** The optional fingerprint and the settings, in any order; a repeated key keeps its last value. */
  function ParseTail(ts: seq<string>, acc: Tail): Result<Tail> {
    if ts == [] then Ok(acc)
    else
      var t := ts[0];
      match FindEquals(t)
      case Some(i) =>
        if i == 0 then Err(InvalidParam(t))
        else ParseTail(ts[1..], acc.(params := acc.params[t[..i] := t[i + 1..]]))
      case None =>
        if !IsFingerprint(t) then Err(InvalidParam(t))
        else if acc.fingerprint.Some? then Err(DuplicateFingerprint)
        else ParseTail(ts[1..], acc.(fingerprint := Some(UpperCase(t))))
  }

  /** The address token and what follows it, behind an already chosen transport. */
  function ParseAddress<Addr(!new)>(text: AddrText<Addr>, transport: Option<string>, ts: seq<string>): Result<Bridge<Addr>> {
    if ts == [] then Err(MissingAddress)
    else
      match text.parse(ts[0])
      case None => Err(InvalidAddress(ts[0]))
      case Some(addr) =>
        match ParseTail(ts[1..], Tail(None, map[]))
        case Err(e) => Err(e)
        case Ok(tail) => Ok(Bridge(transport, addr, tail.fingerprint, tail.params))
  }

  function ParseTokens<Addr(!new)>(text: AddrText<Addr>, tokens: seq<string>): Result<Bridge<Addr>> {
    if tokens == [] then Err(Empty)
    else
      var ts := if SaysBridge(tokens[0]) then tokens[1..] else tokens;
      if ts == [] then Err(MissingAddress)
      else if LooksLikeAddress(ts[0]) then ParseAddress(text, None, ts)
      else if !ValidTransport(ts[0]) then Err(InvalidTransport(ts[0]))
      else ParseAddress(text, Some(ts[0]), ts[1..])
  }

  function Parse<Addr(!new)>(text: AddrText<Addr>, s: string): Result<Bridge<Addr>> {
    ParseTokens(text, Tokens(s))
  }

  /** The parser as it runs: a loop over the tokens after the address. */
  method FromStr<Addr(!new)>(text: AddrText<Addr>, s: string) returns (r: Result<Bridge<Addr>>)
    ensures r == Parse(text, s)
  {
    var tokens := Tokens(s);
    if tokens == [] {
      return Err(Empty);
    }
    var next := if SaysBridge(tokens[0]) then 1 else 0;
    if next == |tokens| {
      return Err(MissingAddress);
    }
    var transport: Option<string> := None;
    if !LooksLikeAddress(tokens[next]) {
      if !ValidTransport(tokens[next]) {
        return Err(InvalidTransport(tokens[next]));
      }
      transport := Some(tokens[next]);
      next := next + 1;
      if next == |tokens| {
        return Err(MissingAddress);
      }
    }
    assert Parse(text, s) == ParseAddress(text, transport, tokens[next..]);
    var addr := text.parse(tokens[next]);
    if addr.None? {
      return Err(InvalidAddress(tokens[next]));
    }
    var fingerprint: Option<string>, params: map<string, string> := None, map[];
    ghost var whole := ParseTail(tokens[next + 1..], Tail(None, map[]));
    assert tokens[next..][1..] == tokens[next + 1..];
    for i := next + 1 to |tokens|
      invariant ParseTail(tokens[i..], Tail(fingerprint, params)) == whole
    {
      var t := tokens[i];
      assert tokens[i..][0] == t && tokens[i..][1..] == tokens[i + 1..];
      var eq := FindEquals(t);
      if eq.Some? {
        if eq.value == 0 {
          return Err(InvalidParam(t));
        }
        params := params[t[..eq.value] := t[eq.value + 1..]];
      } else if IsFingerprint(t) {
        if fingerprint.Some? {
          return Err(DuplicateFingerprint);
        }
        fingerprint := Some(UpperCase(t));
      } else {
        return Err(InvalidParam(t));
      }
    }
    return Ok(Bridge(transport, addr.value, fingerprint, params));
  }

  // ------------------------------------------------------------------ printing

  function Setting(k: string, v: string): string {
    k + ("=" + v)
  }

  function Settings(keys: seq<string>, params: map<string, string>): seq<string>
    requires forall k :: k in keys ==> k in params
  {
    if keys == [] then [] else [Setting(keys[0], params[keys[0]])] + Settings(keys[1..], params)
  }

  /** A transport spelled like the directive gets the directive in front. */
  function TransportWords(transport: Option<string>): seq<string> {
    if transport.None? then []
    else if SaysBridge(transport.value) then ["Bridge", transport.value]
    else [transport.value]
  }

  function TailWords(fingerprint: Option<string>, params: map<string, string>, keys: seq<string>): seq<string>
    requires forall k :: k in keys ==> k in params
  {
    (if fingerprint.None? then [] else [fingerprint.value]) + Settings(keys, params)
  }

  /** The words of the printed line; `keys` are the settings' keys in map order. */
  function Words<Addr(!new)>(text: AddrText<Addr>, b: Bridge<Addr>, keys: seq<string>): seq<string>
    requires forall k :: k in keys ==> k in b.params
  {
    TransportWords(b.transport) + ([text.show(b.addr)] + TailWords(b.fingerprint, b.params, keys))
  }

  function Display<Addr(!new)>(text: AddrText<Addr>, b: Bridge<Addr>, keys: seq<string>): string
    requires forall k :: k in keys ==> k in b.params
  {
    Join(Words(text, b, keys))
  }

  lemma {:induction false} JoinAppend(a: seq<string>, b: seq<string>)
    requires a != [] && b != []
    ensures Join(a + b) == Join(a) + [' '] + Join(b)
  {
    if |a| == 1 {
      assert (a + b)[1..] == b;
    } else {
      JoinAppend(a[1..], b);
      assert (a + b)[1..] == a[1..] + b;
      assert a[0] + ([' '] + (Join(a[1..]) + [' '] + Join(b))) == a[0] + ([' '] + Join(a[1..])) + [' '] + Join(b);
    }
  }

  // ----------------------------------------------------------------- round trip

  /** The values parsing can produce. */
  predicate Canonical<Addr>(b: Bridge<Addr>) {
    && (b.transport.Some? ==> ValidTransport(b.transport.value))
    && (b.fingerprint.Some? ==> IsFingerprint(b.fingerprint.value) && UpperCase(b.fingerprint.value) == b.fingerprint.value)
    && CanonicalParams(b.params)
  }

  predicate CanonicalParams(params: map<string, string>) {
    forall k :: k in params ==> k != "" && '=' !in k && Clean(k) && Clean(params[k])
  }

  function HexValue(c: char): int
    requires IsHex(c)
  {
    if c <= '9' then c as int - 48 else if c <= 'F' then c as int - 55 else c as int - 87
  }

  /** A fingerprint in upper case is the same number, digit by digit, without lower-case letters. */
  lemma UpperHex(s: string)
    requires IsFingerprint(s)
    ensures var u := UpperCase(s);
            && IsFingerprint(u) && UpperCase(u) == u
            && forall i :: 0 <= i < |s| ==> !('a' <= u[i] <= 'z') && HexValue(u[i]) == HexValue(s[i])
  {
  }

  predicate CanonicalTail(t: Tail) {
    && (t.fingerprint.Some? ==> IsFingerprint(t.fingerprint.value) && UpperCase(t.fingerprint.value) == t.fingerprint.value)
    && CanonicalParams(t.params)
  }

  lemma {:induction false} TailIsCanonical(ts: seq<string>, acc: Tail)
    requires forall t :: t in ts ==> Clean(t)
    requires CanonicalTail(acc) && ParseTail(ts, acc).Ok?
    ensures CanonicalTail(ParseTail(ts, acc).value)
  {
    if ts != [] {
      var t := ts[0];
      assert t in ts;
      assert forall x :: x in ts[1..] ==> x in ts;
      var i := FindEquals(t);
      if i.Some? {
        assert Clean(t[..i.value]) && Clean(t[i.value + 1..]);
        TailIsCanonical(ts[1..], acc.(params := acc.params[t[..i.value] := t[i.value + 1..]]));
      } else {
        UpperHex(t);
        TailIsCanonical(ts[1..], acc.(fingerprint := Some(UpperCase(t))));
      }
    }
  }

  lemma ParsedIsCanonical<Addr(!new)>(text: AddrText<Addr>, s: string)
    requires Parse(text, s).Ok?
    ensures Canonical(Parse(text, s).value)
  {
    var tokens := Tokens(s);
    var ts := if SaysBridge(tokens[0]) then tokens[1..] else tokens;
    var rest := if LooksLikeAddress(ts[0]) then ts else ts[1..];
    assert forall t :: t in rest[1..] ==> t in tokens;
    TailIsCanonical(rest[1..], Tail(None, map[]));
  }

  function InsertAll(acc: map<string, string>, keys: seq<string>, params: map<string, string>): map<string, string>
    requires forall k :: k in keys ==> k in params
    decreases |keys|
  {
    if keys == [] then acc else InsertAll(acc[keys[0] := params[keys[0]]], keys[1..], params)
  }

  lemma {:induction false} InsertAllHolds(acc: map<string, string>, keys: seq<string>, params: map<string, string>)
    requires forall k :: k in keys ==> k in params
    ensures var m := InsertAll(acc, keys, params);
            && (forall k :: k in m <==> k in acc || k in keys)
            && (forall k :: k in m ==> m[k] == if k in keys then params[k] else acc[k])
    decreases |keys|
  {
    if keys != [] {
      InsertAllHolds(acc[keys[0] := params[keys[0]]], keys[1..], params);
      assert forall k :: k in keys <==> k == keys[0] || k in keys[1..];
    }
  }

  lemma {:induction false} SettingsParse(keys: seq<string>, params: map<string, string>, acc: Tail)
    requires (forall k :: k in keys ==> k in params) && CanonicalParams(params)
    ensures ParseTail(Settings(keys, params), acc) == Ok(acc.(params := InsertAll(acc.params, keys, params)))
    ensures forall t :: t in Settings(keys, params) ==> t != "" && Clean(t)
  {
    if keys != [] {
      var k := keys[0];
      assert k in keys;
      var t := Setting(k, params[k]);
      FindEqualsAfterKey(k, params[k]);
      assert t[..|k|] == k && t[|k| + 1..] == params[k];
      SettingsParse(keys[1..], params, acc.(params := acc.params[k := params[k]]));
      assert Settings(keys, params)[1..] == Settings(keys[1..], params);
    }
  }

  /** What follows the address parses back to the fingerprint and the settings. */
  lemma TailParses<Addr(!new)>(b: Bridge<Addr>, keys: seq<string>)
    requires Canonical(b) && (forall k :: k in keys <==> k in b.params)
    ensures var words := TailWords(b.fingerprint, b.params, keys);
            && ParseTail(words, Tail(None, map[])) == Ok(Tail(b.fingerprint, b.params))
            && (forall t :: t in words ==> t != "" && Clean(t))
  {
    var settings := Settings(keys, b.params);
    SettingsParse(keys, b.params, Tail(b.fingerprint, map[]));
    InsertAllHolds(map[], keys, b.params);
    assert InsertAll(map[], keys, b.params) == b.params;
    if b.fingerprint.Some? {
      var words := [b.fingerprint.value] + settings;
      assert words[1..] == settings;
      HexHasNoEquals(b.fingerprint.value);
    } else {
      assert [] + settings == settings;
    }
  }

  lemma HexHasNoEquals(s: string)
    requires IsFingerprint(s)
    ensures FindEquals(s) == None && Clean(s)
  {
  }

  lemma TransportIsOneWord(t: string)
    requires ValidTransport(t)
    ensures Clean(t) && !LooksLikeAddress(t)
  {
  }

  /** Every canonical bridge is recovered from its printed form. */
  lemma DisplayRoundTrip<Addr(!new)>(text: AddrText<Addr>, b: Bridge<Addr>, keys: seq<string>)
    requires Lawful(text) && Canonical(b) && (forall k :: k in keys <==> k in b.params)
    ensures Parse(text, Display(text, b, keys)) == Ok(b)
  {
    var tail := TailWords(b.fingerprint, b.params, keys);
    TailParses(b, keys);
    var fromAddr := [text.show(b.addr)] + tail;
    assert fromAddr[1..] == tail;
    assert ParseAddress(text, b.transport, fromAddr) == Ok(b);
    NotBridge(fromAddr[0]);
    TransportParses(text, b.transport, fromAddr);
    assert ':' in fromAddr[0] && fromAddr[0] != "";
    CleanWords(b.transport, fromAddr);
    TokensOfJoin(TransportWords(b.transport) + fromAddr);
  }

  lemma CleanWords(transport: Option<string>, ts: seq<string>)
    requires transport.Some? ==> ValidTransport(transport.value)
    requires forall t :: t in ts ==> t != "" && Clean(t)
    ensures forall t :: t in TransportWords(transport) + ts ==> t != "" && Clean(t)
  {
    if transport.Some? {
      TransportIsOneWord(transport.value);
    }
  }

  /** The printed transport is read back as the transport, never as directive or address. */
  lemma TransportParses<Addr(!new)>(text: AddrText<Addr>, transport: Option<string>, ts: seq<string>)
    requires transport.Some? ==> ValidTransport(transport.value)
    requires ts != [] && LooksLikeAddress(ts[0]) && !SaysBridge(ts[0])
    ensures ParseTokens(text, TransportWords(transport) + ts) == ParseAddress(text, transport, ts)
  {
    var words := TransportWords(transport) + ts;
    if transport.None? {
      assert words == ts;
    } else {
      var t := transport.value;
      TransportIsOneWord(t);
      if SaysBridge(t) {
        assert words[1..] == [t] + ts && words[1..][1..] == ts;
      } else {
        assert words[1..] == ts;
      }
    }
  }

  lemma NotBridge(s: string)
    requires ':' in s
    ensures !SaysBridge(s)
  {
    var i :| 0 <= i < |s| && s[i] == ':';
    assert Lower(s[i]) == ':';
  }

  // ---------------------------------------------------- directive and rejections

  /** The directive in front, in any case, changes nothing, unless what follows reads like a directive itself. */
  lemma DirectiveIsIgnored<Addr(!new)>(text: AddrText<Addr>, w: string, ts: seq<string>)
    requires SaysBridge(w)
    ensures ts == [] ==> ParseTokens(text, [w] + ts) == Err(MissingAddress)
    ensures ts != [] && !SaysBridge(ts[0]) ==> ParseTokens(text, [w] + ts) == ParseTokens(text, ts)
    ensures ts != [] && SaysBridge(ts[0]) ==> ParseTokens(text, [w] + ts) == ParseAddress(text, Some(ts[0]), ts[1..])
  {
    assert ([w] + ts)[1..] == ts;
    if ts != [] && SaysBridge(ts[0]) {
      BridgeIsATransport(ts[0]);
    }
  }

  /** The directive is the word in any mixture of cases. */
  lemma DirectiveSpelling(w: string)
    ensures SaysBridge(w) <==>
              && |w| == 6 && w[0] in {'b', 'B'} && w[1] in {'r', 'R'} && w[2] in {'i', 'I'}
              && w[3] in {'d', 'D'} && w[4] in {'g', 'G'} && w[5] in {'e', 'E'}
  {
    assert BRIDGE[0] == 'b' && BRIDGE[1] == 'r' && BRIDGE[2] == 'i' && BRIDGE[3] == 'd' && BRIDGE[4] == 'g' && BRIDGE[5] == 'e';
    forall c: char | Lower(c) in {'b', 'r', 'i', 'd', 'g', 'e'}
      ensures c == Lower(c) || c + ' ' == Lower(c)
    {
    }
  }

  lemma BridgeIsATransport(w: string)
    requires SaysBridge(w)
    ensures ValidTransport(w) && !LooksLikeAddress(w)
  {
    forall i | 0 <= i < |w|
      ensures IsAlpha(w[i])
    {
      assert Lower(w[i]) == BRIDGE[i];
    }
  }

  /** The ways a line is refused before its address is read. */
  lemma FrontIsRefused<Addr(!new)>(text: AddrText<Addr>, ts: seq<string>)
    ensures ts == [] ==> ParseTokens(text, ts) == Err(Empty)
    ensures ts != [] && ':' !in ts[0] && !ValidTransport(ts[0]) ==> ParseTokens(text, ts) == Err(InvalidTransport(ts[0]))
    ensures |ts| == 1 && ValidTransport(ts[0]) ==> ParseTokens(text, ts) == Err(MissingAddress)
    ensures |ts| > 1 && ValidTransport(ts[0]) && !SaysBridge(ts[0]) && text.parse(ts[1]).None? ==>
              ParseTokens(text, ts) == Err(InvalidAddress(ts[1]))
    ensures ts != [] && ':' in ts[0] && text.parse(ts[0]).None? ==> ParseTokens(text, ts) == Err(InvalidAddress(ts[0]))
  {
    if ts != [] {
      if SaysBridge(ts[0]) {
        BridgeIsATransport(ts[0]);
      }
      if ValidTransport(ts[0]) {
        TransportIsOneWord(ts[0]);
      }
    }
  }

  /** A word after the address that is neither a setting with a key nor a fingerprint. */
  predicate Stray(t: string) {
    if '=' in t then t[0] == '=' else !(|t| == 40 && forall i :: 0 <= i < 40 ==> IsHex(t[i]))
  }

  predicate PlainFingerprint(t: string) { '=' !in t && !Stray(t) }

  /** The first offending word: a stray one, or a second fingerprint. */
  predicate Offends(ts: seq<string>, i: nat)
    requires i < |ts|
  {
    Stray(ts[i]) || (PlainFingerprint(ts[i]) && exists j :: 0 <= j < i && PlainFingerprint(ts[j]))
  }

  /** The words after the address are refused exactly for their first offending word, and accepted if there is none. */
  lemma {:induction false} TailIsJudged(ts: seq<string>, acc: Tail, n: nat)
    requires n <= |ts| && (forall i :: 0 <= i < n ==> !Offends(ts, i))
    requires acc.fingerprint.Some? <==> exists j :: 0 <= j < n && PlainFingerprint(ts[j])
    ensures match ParseTail(ts[n..], acc)
            case Ok(_) => forall i :: 0 <= i < |ts| ==> !Offends(ts, i)
            case Err(e) => exists k :: 0 <= k < |ts| && Offends(ts, k) && (forall i :: 0 <= i < k ==> !Offends(ts, i))
                                       && e == if Stray(ts[k]) then InvalidParam(ts[k]) else DuplicateFingerprint
    decreases |ts| - n
  {
    if n < |ts| {
      var t := ts[n];
      assert ts[n..][0] == t && ts[n..][1..] == ts[n + 1..];
      var at := FindEquals(t);
      if at.Some? && at.value > 0 {
        assert t[0] == t[..at.value][0];
        TailIsJudged(ts, acc.(params := acc.params[t[..at.value] := t[at.value + 1..]]), n + 1);
      } else if at.None? && IsFingerprint(t) && acc.fingerprint.None? {
        assert PlainFingerprint(t);
        TailIsJudged(ts, acc.(fingerprint := Some(UpperCase(t))), n + 1);
      } else {
        assert Offends(ts, n);
      }
    }
  }

  /** The value a word gives to the key `k`. */
  function ValueIn(t: string, k: string): Option<string> {
    if |k| < |t| && t[..|k|] == k && t[|k|] == '=' then Some(t[|k| + 1..]) else None
  }

  /** The value that the last word to mention the key gives it. */
  function LastValue(ts: seq<string>, k: string): Option<string> {
    if ts == [] then None
    else
      var v := ValueIn(ts[|ts| - 1], k);
      if v.Some? then v else LastValue(ts[..|ts| - 1], k)
  }

  lemma {:induction false} LastValueCons(ts: seq<string>, k: string)
    requires ts != []
    ensures LastValue(ts, k) == if LastValue(ts[1..], k).Some? then LastValue(ts[1..], k) else ValueIn(ts[0], k)
  {
    var n := |ts| - 1;
    if n > 0 {
      LastValueCons(ts[..n], k);
      assert ts[1..][..n - 1] == ts[..n][1..];
    } else {
      assert ts[1..] == [] && ts[..n] == [];
    }
  }

  /** A word gives a value to exactly one key: the text before its first equals sign. */
  lemma OneKeyPerWord(t: string, k: string)
    requires '=' !in k
    ensures ValueIn(t, k).Some? <==> FindEquals(t) == Some(|k|) && t[..|k|] == k
  {
    if ValueIn(t, k).Some? {
      assert t == k + ("=" + t[|k| + 1..]);
      FindEqualsAfterKey(k, t[|k| + 1..]);
    }
  }

  /** Accepted settings hold, for each key, the value of the last word that mentions it. */
  lemma {:induction false} LastSettingWins(ts: seq<string>, acc: Tail, k: string)
    requires ParseTail(ts, acc).Ok? && '=' !in k
    ensures var params, last := ParseTail(ts, acc).value.params, LastValue(ts, k);
            && (last.Some? ==> k in params && params[k] == last.value)
            && (last.None? ==> (k in params <==> k in acc.params) && (k in params ==> params[k] == acc.params[k]))
  {
    if ts != [] {
      var t := ts[0];
      LastValueCons(ts, k);
      OneKeyPerWord(t, k);
      var at := FindEquals(t);
      if at.Some? {
        LastSettingWins(ts[1..], acc.(params := acc.params[t[..at.value] := t[at.value + 1..]]), k);
      } else {
        LastSettingWins(ts[1..], acc.(fingerprint := Some(UpperCase(t))), k);
      }
    }
  }

  /** An accepted line keeps its fingerprint, wherever it stands among the settings. */
  lemma {:induction false} FingerprintIsKept(ts: seq<string>, acc: Tail, i: nat)
    requires ParseTail(ts, acc).Ok? && i < |ts| && PlainFingerprint(ts[i])
    ensures ParseTail(ts, acc).value.fingerprint == Some(UpperCase(ts[i]))
  {
    var t := ts[0];
    var at := FindEquals(t);
    if at.Some? {
      assert ts[1..][i - 1] == ts[i];
      FingerprintIsKept(ts[1..], acc.(params := acc.params[t[..at.value] := t[at.value + 1..]]), i - 1);
    } else if i > 0 {
      assert ts[1..][i - 1] == ts[i];
      FingerprintIsKept(ts[1..], acc.(fingerprint := Some(UpperCase(t))), i - 1);
    } else {
      FingerprintStays(ts[1..], acc.(fingerprint := Some(UpperCase(t))));
    }
  }

  lemma {:induction false} FingerprintStays(ts: seq<string>, acc: Tail)
    requires ParseTail(ts, acc).Ok? && acc.fingerprint.Some?
    ensures ParseTail(ts, acc).value.fingerprint == acc.fingerprint
  {
    if ts != [] {
      var at := FindEquals(ts[0]);
      if at.Some? {
        FingerprintStays(ts[1..], acc.(params := acc.params[ts[0][..at.value] := ts[0][at.value + 1..]]));
      }
    }
  }

  /** A transport name is an identifier of ASCII letters, digits and underscores that begins with no digit. */
  lemma TransportNames(s: string)
    ensures ValidTransport(s) <==>
              && |s| > 0 && !('0' <= s[0] <= '9')
              && forall i :: 0 <= i < |s| ==> 'a' <= s[i] <= 'z' || 'A' <= s[i] <= 'Z' || '0' <= s[i] <= '9' || s[i] == '_'
  {
  }

  /** Whatever the parser accepts, printing and parsing again gives the same bridge. */
  lemma ParseDisplayParse<Addr(!new)>(text: AddrText<Addr>, s: string, keys: seq<string>)
    requires Lawful(text) && Parse(text, s).Ok?
    requires forall k :: k in keys <==> k in Parse(text, s).value.params
    ensures Parse(text, Display(text, Parse(text, s).value, keys)) == Parse(text, s)
  {
    ParsedIsCanonical(text, s);
    DisplayRoundTrip(text, Parse(text, s).value, keys);
  }

  /** The printer as it runs: words written one after the other, settings in ascending key order. */
  method Fmt<Addr(!new)>(text: AddrText<Addr>, b: Bridge<Addr>, keys: seq<string>) returns (out: string)
    requires A.Ascending(keys) && (forall k :: k in keys <==> k in b.params)
    ensures out == Display(text, b, keys)
  {
    out := "";
    var sep := "";
    ghost var words: seq<string> := [];
    if b.transport.Some? {
      if SaysBridge(b.transport.value) {
        out := PushWord(out, "", "Bridge", words);
        words := ["Bridge"];
        out := PushWord(out, " ", b.transport.value, words);
      } else {
        out := PushWord(out, "", b.transport.value, words);
      }
      words := TransportWords(b.transport);
      sep := " ";
    }
    out := PushWord(out, sep, text.show(b.addr), words);
    words := words + [text.show(b.addr)];
    if b.fingerprint.Some? {
      out := PushWord(out, " ", b.fingerprint.value, words);
      words := words + [b.fingerprint.value];
    }
    ghost var front := words;
    assert Words(text, b, keys) == front + Settings(keys, b.params);
    out := FmtSettings(out, keys, b.params, front);
  }

  /** Write one more word after a separator, which only the first word lacks. */
  method PushWord(line: string, sep: string, word: string, ghost words: seq<string>) returns (out: string)
    requires line == Join(words) && (sep == if words == [] then "" else " ")
    ensures out == Join(words + [word])
  {
    if words == [] {
      assert words + [word] == [word];
    } else {
      JoinAppend(words, [word]);
    }
    out := line + sep + word;
  }

  method FmtSettings(line: string, keys: seq<string>, params: map<string, string>, ghost front: seq<string>) returns (out: string)
    requires (forall k :: k in keys ==> k in params) && front != [] && line == Join(front)
    ensures out == Join(front + Settings(keys, params))
  {
    out := line;
    ghost var words := front;
    for i := 0 to |keys|
      invariant words != [] && out == Join(words)
      invariant front + Settings(keys, params) == words + Settings(keys[i..], params)
    {
      var k := keys[i];
      assert k in keys;
      assert keys[i..][1..] == keys[i + 1..];
      var word := Setting(k, params[k]);
      out := PushWord(out, " ", word, words);
      assert words + Settings(keys[i..], params) == words + [word] + Settings(keys[i + 1..], params);
      words := words + [word];
    }
    assert keys[|keys|..] == [];
    assert words + [] == words;
  }
}
