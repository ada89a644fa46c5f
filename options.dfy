/** The JDWP option string ("transport=dt_socket,address=8000,server=y")
    and the configuration record it is parsed into, plus the field-wise
    equality of that record and of a code location. */
module Options {

  type u8 = n: int | 0 <= n < 0x100
  type u16 = n: int | 0 <= n < 0x1_0000
  type u64 = n: int | 0 <= n < 0x1_0000_0000_0000_0000

  /** Largest port number the address option accepts. */
  const kMaxPort: nat := 0xffff

  datatype TransportType =
    | TransportNone        // no transport named yet
    | TransportUnknown     // a transport was named that is not supported
    | TransportSocket      // transport=dt_socket
    | TransportAndroidAdb  // transport=dt_android_adb

  /** The configuration record that the option parser writes into. */
  datatype JdwpOptions = JdwpOptions(
    transport: TransportType,
    server: bool,
    suspend: bool,
    host: string,
    port: u16)

  /** A code position reported to the debugger. */
  datatype JdwpLocation = JdwpLocation(
    typeTag: u8,
    classId: u64,
    methodId: u64,
    dexPc: u64)

  /** The parser's boolean verdict together with the record as the parser
      left it: the record is written through even on the failing paths. */
  datatype ParseResult = ParseResult(ok: bool, options: JdwpOptions)

  // ---------------------------------------------------------------------
  // Equality operators

  /** `operator==` on `JdwpOptions`: equal exactly when every field is. */
  function OptionsEqual(lhs: JdwpOptions, rhs: JdwpOptions): (eq: bool)
    ensures eq <==> lhs == rhs
  {
    lhs.transport == rhs.transport &&
    lhs.server == rhs.server &&
    lhs.suspend == rhs.suspend &&
    lhs.host == rhs.host &&
    lhs.port == rhs.port
  }

  /** `operator==` on `JdwpLocation`. */
  function LocationEqual(lhs: JdwpLocation, rhs: JdwpLocation): (eq: bool)
    ensures eq <==> lhs == rhs
  {
    lhs.dexPc == rhs.dexPc && lhs.methodId == rhs.methodId &&
    lhs.classId == rhs.classId && lhs.typeTag == rhs.typeTag
  }

  /** `operator!=` on `JdwpLocation`: the negation of `==`. */
  function LocationNotEqual(lhs: JdwpLocation, rhs: JdwpLocation): (ne: bool)
    ensures ne <==> lhs != rhs
    ensures ne == !LocationEqual(rhs, lhs)
  {
    !LocationEqual(lhs, rhs)
  }

  // ---------------------------------------------------------------------
  // Strings

  /** Position of the first `c` in `s`, or `|s|` (npos) when there is none. */
  function FindChar(s: string, c: char): (i: nat)
    ensures i <= |s|
    ensures c !in s[..i]
    ensures i < |s| ==> s[i] == c
    ensures i == |s| <==> c !in s
  {
    if s == [] then 0
    else if s[0] == c then 0
    else 1 + FindChar(s[1..], c)
  }

  /** Splitting on a separator, dropping empty fields: the pieces between
      separators, in order. */
  function Split(s: string, sep: char): (pieces: seq<string>)
    ensures forall i :: 0 <= i < |pieces| ==> pieces[i] != [] && sep !in pieces[i]
    decreases |s|
  {
    if s == [] then []
    else if s[0] == sep then Split(s[1..], sep)
    else
      var n := FindChar(s, sep);
      [s[..n]] + Split(s[n..], sep)
  }

  /** The first `c` of `a + [c] + b` is the first `c` of `a`, if any. */
  lemma {:induction false} FindCharConcat(a: string, c: char, b: string)
    ensures FindChar(a + [c] + b, c) == FindChar(a, c)
  {
    if a != [] && a[0] != c {
      assert (a + [c] + b)[1..] == a[1..] + [c] + b;
      FindCharConcat(a[1..], c, b);
    }
  }

  /** A separator splits the input into two independently split halves. */
  lemma {:induction false} SplitAtSeparator(a: string, sep: char, b: string)
    ensures Split(a + [sep] + b, sep) == Split(a, sep) + Split(b, sep)
    decreases |a|
  {
    var s := a + [sep] + b;
    if a == [] {
      assert s[1..] == b;
    } else if a[0] == sep {
      assert s[1..] == a[1..] + [sep] + b;
      SplitAtSeparator(a[1..], sep, b);
    } else {
      FindCharConcat(a, sep, b);
      var n := FindChar(a, sep);
      assert s[..n] == a[..n];
      assert s[n..] == a[n..] + [sep] + b;
      SplitAtSeparator(a[n..], sep, b);
    }
  }

  /** A non-empty piece free of separators is its own split. */
  lemma SplitField(s: string, sep: char)
    requires s != [] && sep !in s
    ensures Split(s, sep) == [s]
  {
    assert s[0] != sep;
    assert s[..|s|] == s;
    assert s[|s|..] == [];
  }

  /** The pieces, glued back together, are the input without its separators. */
  lemma {:induction false} SplitKeepsEveryOtherChar(s: string, sep: char)
    ensures Concat(Split(s, sep)) == Without(s, sep)
    decreases |s|
  {
    if s == [] {
    } else if s[0] == sep {
      SplitKeepsEveryOtherChar(s[1..], sep);
    } else {
      var n := FindChar(s, sep);
      assert s == s[..n] + s[n..];
      WithoutConcat(s[..n], s[n..], sep);
      WithoutAbsent(s[..n], sep);
      SplitKeepsEveryOtherChar(s[n..], sep);
      ConcatCons(s[..n], Split(s[n..], sep));
    }
  }

  function Concat(ss: seq<string>): string {
    if ss == [] then [] else ss[0] + Concat(ss[1..])
  }

  function Without(s: string, c: char): string {
    if s == [] then [] else (if s[0] == c then [] else [s[0]]) + Without(s[1..], c)
  }

  lemma ConcatCons(x: string, ss: seq<string>)
    ensures Concat([x] + ss) == x + Concat(ss)
  {
    assert ([x] + ss)[1..] == ss;
  }

  lemma {:induction false} WithoutConcat(a: string, b: string, c: char)
    ensures Without(a + b, c) == Without(a, c) + Without(b, c)
  {
    if a != [] {
      assert (a + b)[1..] == a[1..] + b;
      WithoutConcat(a[1..], b, c);
    } else {
      assert a + b == b;
    }
  }

  lemma {:induction false} WithoutAbsent(a: string, c: char)
    requires c !in a
    ensures Without(a, c) == a
  {
    if a != [] { WithoutAbsent(a[1..], c); }
  }

  // ---------------------------------------------------------------------
  // Decimal port numbers

  predicate IsDigit(c: char) { '0' <= c <= '9' }

  predicate AllDigits(s: string) { forall i :: 0 <= i < |s| ==> IsDigit(s[i]) }

  function DigitValue(c: char): nat requires IsDigit(c) { c as int - '0' as int }

  /** The number a string of decimal digits denotes, most significant first. */
  function DecimalValue(s: string): nat
    requires AllDigits(s)
  {
    if s == [] then 0 else DecimalValue(s[..|s| - 1]) * 10 + DigitValue(s[|s| - 1])
  }

  /** The canonical decimal spelling of a number. */
  function DecimalString(n: nat): (s: string)
    ensures s != [] && AllDigits(s)
  {
    (if n < 10 then [] else DecimalString(n / 10)) + [('0' as int + n % 10) as char]
  }

  /** Number of leading decimal digits of `s`. */
  function DigitRun(s: string): (k: nat)
    ensures k <= |s| && AllDigits(s[..k])
    ensures k < |s| ==> !IsDigit(s[k])
  {
    if s == [] || !IsDigit(s[0]) then 0
    else
      var k := 1 + DigitRun(s[1..]);
      assert s[..k] == [s[0]] + s[1..][..k - 1];
      k
  }

  /** `strtoul(text, &end, 10)` on digit text: the value of the leading run
      of digits and the offset `end` where the conversion stopped. */
  function Strtoul(text: string): (r: (nat, nat))
    ensures r.1 <= |text| && AllDigits(text[..r.1])
    ensures r.0 == DecimalValue(text[..r.1])
    ensures r.1 == |text| <==> AllDigits(text)
    ensures r.1 < |text| ==> !IsDigit(text[r.1])
  {
    var k := DigitRun(text);
    assert k == |text| ==> text[..k] == text;
    (DecimalValue(text[..k]), k)
  }

  /** Port text the address option accepts. */
  predicate IsPortText(t: string) {
    t != [] && AllDigits(t) && DecimalValue(t) <= kMaxPort
  }

  /** Printing a number and reading it back gives the number. */
  lemma {:induction false} DecimalRoundTrip(n: nat)
    ensures DecimalValue(DecimalString(n)) == n
  {
    var s := DecimalString(n);
    var last := ('0' as int + n % 10) as char;
    var front := if n < 10 then [] else DecimalString(n / 10);
    assert s == front + [last];
    assert s[..|s| - 1] == front;
    if n >= 10 { DecimalRoundTrip(n / 10); }
  }

  // ---------------------------------------------------------------------
  // One option

  /** The `address` value, `<port>` or `<host>:<port>`, cut at its first
      colon into the host (empty without a colon) and the port text. */
  function HostAndPort(value: string): (hp: (string, string))
    ensures ':' !in hp.0
    ensures ':' in value ==> value == hp.0 + [':'] + hp.1
    ensures ':' !in value ==> hp.0 == [] && hp.1 == value
  {
    var colon := FindChar(value, ':');
    if colon < |value| then
      assert value == value[..colon] + [':'] + value[colon + 1..];
      (value[..colon], value[colon + 1..])
    else ([], value)
  }

  /** The `address` option: the host is cleared and replaced first; the port
      is set only when the port text is non-empty decimal and at most 65535. */
  function ParseAddress(value: string, opts: JdwpOptions): (r: ParseResult)
    ensures r.options.host == HostAndPort(value).0
    ensures r.ok <==> IsPortText(HostAndPort(value).1)
    ensures r.ok ==> r.options.port == DecimalValue(HostAndPort(value).1)
    ensures !r.ok ==> r.options.port == opts.port
    ensures r.options.transport == opts.transport
    ensures r.options.server == opts.server && r.options.suspend == opts.suspend
  {
    var (host, portText) := HostAndPort(value);
    var cleared := opts.(host := host);
    if portText == [] then ParseResult(false, cleared)
    else
      var (port, end) := Strtoul(portText);
      assert end == |portText| ==> portText[..end] == portText;
      if end != |portText| || port > kMaxPort then ParseResult(false, cleared)
      else ParseResult(true, cleared.(port := port))
  }

  /** Reads a `y`/`n` flag value. */
  function YesNo(value: string): (r: (bool, bool))
    ensures r.0 <==> value == "y" || value == "n"
    ensures r.0 ==> (r.1 <==> value == "y")
  {
    if value == "n" then (true, false)
    else if value == "y" then (true, true)
    else (false, false)
  }

  predicate IsKnownKey(name: string) {
    name == "transport" || name == "server" || name == "suspend" || name == "address"
  }

  /** `ParseJdwpOption`: applies one `name=value` pair to the record. */
  function ParseJdwpOption(name: string, value: string, opts: JdwpOptions): (r: ParseResult)
    // transport: only the two supported names succeed; any other records Unknown
    ensures name == "transport" ==>
      (r.ok <==> value == "dt_socket" || value == "dt_android_adb") &&
      (value == "dt_socket" ==> r.options.transport == TransportSocket) &&
      (value == "dt_android_adb" ==> r.options.transport == TransportAndroidAdb) &&
      (!r.ok ==> r.options.transport == TransportUnknown)
    // server and suspend: `y` or `n`, anything else fails and changes nothing
    ensures name == "server" ==>
      (r.ok <==> value == "y" || value == "n") &&
      r.options.server == (if r.ok then value == "y" else opts.server)
    ensures name == "suspend" ==>
      (r.ok <==> value == "y" || value == "n") &&
      r.options.suspend == (if r.ok then value == "y" else opts.suspend)
    ensures name == "address" ==> r == ParseAddress(value, opts)
    // launch, onthrow, oncaught, timeout and unknown keys are accepted and ignored
    ensures !IsKnownKey(name) ==> r == ParseResult(true, opts)
    // each key touches only its own fields
    ensures r.options.transport != opts.transport ==> name == "transport"
    ensures r.options.server != opts.server ==> name == "server"
    ensures r.options.suspend != opts.suspend ==> name == "suspend"
    ensures r.options.host != opts.host || r.options.port != opts.port ==> name == "address"
  {
    if name == "transport" then
      if value == "dt_socket" then ParseResult(true, opts.(transport := TransportSocket))
      else if value == "dt_android_adb" then ParseResult(true, opts.(transport := TransportAndroidAdb))
      else ParseResult(false, opts.(transport := TransportUnknown))
    else if name == "server" then
      var (ok, b) := YesNo(value);
      if ok then ParseResult(true, opts.(server := b)) else ParseResult(false, opts)
    else if name == "suspend" then
      var (ok, b) := YesNo(value);
      if ok then ParseResult(true, opts.(suspend := b)) else ParseResult(false, opts)
    else if name == "address" then
      ParseAddress(value, opts)
    else
      // "launch", "onthrow", "oncaught", "timeout": valid but unsupported;
      // anything else: unrecognized. Both are ignored.
      ParseResult(true, opts)
  }

  lemma HostAndPortOf(host: string, portText: string)
    requires ':' !in host
    ensures HostAndPort(host + [':'] + portText) == (host, portText)
  {
    var v := host + [':'] + portText;
    FindCharConcat(host, ':', portText);
    assert v[..|host|] == host && v[|host| + 1..] == portText;
  }

  /** `address=<port>` sets that port and empties the host. */
  lemma AddressPortOnly(p: u16, opts: JdwpOptions)
    ensures ParseJdwpOption("address", DecimalString(p), opts) ==
            ParseResult(true, opts.(host := [], port := p))
  {
    var s := DecimalString(p);
    DecimalRoundTrip(p);
    assert ':' !in s by {
      forall i | 0 <= i < |s| ensures s[i] != ':' { assert IsDigit(s[i]); }
    }
  }

  /** `address=<host>:<port>` sets both, for a host without a colon. */
  lemma AddressHostPort(host: string, p: u16, opts: JdwpOptions)
    requires ':' !in host
    ensures ParseJdwpOption("address", host + [':'] + DecimalString(p), opts) ==
            ParseResult(true, opts.(host := host, port := p))
  {
    DecimalRoundTrip(p);
    HostAndPortOf(host, DecimalString(p));
  }

  /** An address with an empty port field fails, after the host was set. */
  lemma AddressMissingPort(host: string, opts: JdwpOptions)
    requires ':' !in host
    ensures ParseJdwpOption("address", host + [':'], opts) == ParseResult(false, opts.(host := host))
  {
    assert host + [':'] == host + [':'] + [];
    HostAndPortOf(host, []);
  }

  /** Applying the same key twice, successfully, is applying the later value. */
  lemma DuplicateKeyOverwrites(name: string, v1: string, v2: string, opts: JdwpOptions)
    requires ParseJdwpOption(name, v1, opts).ok
    requires ParseJdwpOption(name, v2, ParseJdwpOption(name, v1, opts).options).ok
    ensures ParseJdwpOption(name, v2, ParseJdwpOption(name, v1, opts).options) ==
            ParseJdwpOption(name, v2, opts)
  {
  }

  /** Two successful pairs with different keys can be applied in either order. */
  lemma DistinctKeysCommute(n1: string, v1: string, n2: string, v2: string, opts: JdwpOptions)
    requires n1 != n2
    requires ParseJdwpOption(n1, v1, opts).ok
    requires ParseJdwpOption(n2, v2, ParseJdwpOption(n1, v1, opts).options).ok
    ensures ParseJdwpOption(n2, v2, opts).ok
    ensures ParseJdwpOption(n1, v1, ParseJdwpOption(n2, v2, opts).options) ==
            ParseJdwpOption(n2, v2, ParseJdwpOption(n1, v1, opts).options)
  {
  }

  // ---------------------------------------------------------------------
  // The whole option string

  /** The `name` and `value` of a pair, cut at its first `=`, or None when it
      has no `=`. */
  function NameAndValue(pair: string): (nv: Option<(string, string)>)
    ensures nv.None? <==> '=' !in pair
    ensures nv.Some? ==> '=' !in nv.value.0 && pair == nv.value.0 + ['='] + nv.value.1
  {
    var eq := FindChar(pair, '=');
    if eq == |pair| then None
    else
      assert pair == pair[..eq] + ['='] + pair[eq + 1..];
      Some((pair[..eq], pair[eq + 1..]))
  }

  datatype Option<T> = None | Some(value: T)

  /** The pairs applied left to right, stopping at the first that fails. */
  function ApplyPairs(pairs: seq<string>, opts: JdwpOptions): (r: ParseResult)
    ensures pairs == [] ==> r == ParseResult(true, opts)
    decreases |pairs|
  {
    if pairs == [] then ParseResult(true, opts)
    else
      match NameAndValue(pairs[0])
      case None => ParseResult(false, opts)
      case Some((name, value)) =>
        var r := ParseJdwpOption(name, value, opts);
        if !r.ok then r else ApplyPairs(pairs[1..], r.options)
  }

  /** A successful parse had an `=` in every pair. */
  lemma {:induction false} SuccessMeansEveryPairSplits(pairs: seq<string>, opts: JdwpOptions)
    requires ApplyPairs(pairs, opts).ok
    ensures forall j :: 0 <= j < |pairs| ==> '=' in pairs[j]
    decreases |pairs|
  {
    if pairs != [] {
      var (name, value) := NameAndValue(pairs[0]).value;
      SuccessMeansEveryPairSplits(pairs[1..], ParseJdwpOption(name, value, opts).options);
      assert forall j :: 1 <= j < |pairs| ==> pairs[j] == pairs[1..][j - 1];
    }
  }

  /** The final checks on a parsed record: a supported (or unset) transport,
      and a host and port to attach to unless it is a server. */
  predicate Usable(o: JdwpOptions) {
    o.transport != TransportUnknown && (o.server || (o.host != [] && o.port != 0))
  }

  /** What `ParseJdwpOptions` computes: the verdict and the record. */
  function ParseOptions(options: string, init: JdwpOptions): (r: ParseResult)
    ensures options == "help" ==> r == ParseResult(false, init)
    ensures r.ok ==> r.options.transport != TransportUnknown
    ensures r.ok && !r.options.server ==> r.options.host != [] && r.options.port != 0
    ensures options != "help" ==>
      var a := ApplyPairs(Split(options, ','), init);
      r.options == a.options && (r.ok <==> a.ok && Usable(a.options))
  {
    if options == "help" then ParseResult(false, init)
    else
      var r := ApplyPairs(Split(options, ','), init);
      if !r.ok then r
      else if r.options.transport == TransportUnknown then ParseResult(false, r.options)
      else if !r.options.server && (r.options.host == [] || r.options.port == 0) then
        ParseResult(false, r.options)
      else r
  }

  /** `ParseJdwpOptions`: splits the string on commas and applies each
      pair to the record in turn, then checks the result is usable. */
  method ParseJdwpOptions(options: string, init: JdwpOptions) returns (ok: bool, opts: JdwpOptions)
    ensures ParseResult(ok, opts) == ParseOptions(options, init)
  {
    opts := init;
    if options == "help" {
      return false, opts;
    }
    var pairs := Split(options, ',');
    var i := 0;
    while i < |pairs|
      invariant 0 <= i <= |pairs|
      invariant ApplyPairs(pairs, init) == ApplyPairs(pairs[i..], opts)
    {
      var pair := pairs[i];
      assert pairs[i..][0] == pair && pairs[i..][1..] == pairs[i + 1..];
      var equalsPos := FindChar(pair, '=');
      if equalsPos == |pair| {
        return false, opts;
      }
      var attempt := ParseJdwpOption(pair[..equalsPos], pair[equalsPos + 1..], opts);
      opts := attempt.options;
      if !attempt.ok {
        return false, opts;
      }
      i := i + 1;
    }
    if opts.transport == TransportUnknown {
      return false, opts;
    }
    if !opts.server && (opts.host == [] || opts.port == 0) {
      return false, opts;
    }
    return true, opts;
  }

  /** Applying `ps + qs` is applying `ps`, then `qs` only if `ps` succeeded. */
  lemma {:induction false} ApplyPairsConcat(ps: seq<string>, qs: seq<string>, opts: JdwpOptions)
    ensures ApplyPairs(ps + qs, opts) ==
            (var r := ApplyPairs(ps, opts); if r.ok then ApplyPairs(qs, r.options) else r)
    decreases |ps|
  {
    if ps == [] {
      assert ps + qs == qs;
    } else {
      assert (ps + qs)[0] == ps[0] && (ps + qs)[1..] == ps[1..] + qs;
      match NameAndValue(ps[0])
      case None =>
      case Some((name, value)) =>
        var r := ParseJdwpOption(name, value, opts);
        if r.ok { ApplyPairsConcat(ps[1..], qs, r.options); }
    }
  }

  /** Once a pair fails, the later pairs are not applied. */
  lemma StopsAtFirstFailure(ps: seq<string>, k: nat, opts: JdwpOptions)
    requires k <= |ps|
    requires !ApplyPairs(ps[..k], opts).ok
    ensures ApplyPairs(ps, opts) == ApplyPairs(ps[..k], opts)
  {
    assert ps == ps[..k] + ps[k..];
    ApplyPairsConcat(ps[..k], ps[k..], opts);
  }

  /** A pair without `=` fails the parse, leaving the record as the pairs
      before it left it. */
  lemma PairWithoutEqualsFails(ps: seq<string>, k: nat, opts: JdwpOptions)
    requires k < |ps| && '=' !in ps[k]
    requires ApplyPairs(ps[..k], opts).ok
    ensures ApplyPairs(ps, opts) == ParseResult(false, ApplyPairs(ps[..k], opts).options)
  {
    assert ps == ps[..k] + ps[k..];
    ApplyPairsConcat(ps[..k], ps[k..], opts);
    assert ps[k..][0] == ps[k];
  }

  /** Two adjacent successful pairs with different keys may be swapped
      without changing the outcome of the whole sequence. */
  lemma SwapAdjacentPairs(ps: seq<string>, n1: string, v1: string, n2: string, v2: string,
                          qs: seq<string>, opts: JdwpOptions)
    requires n1 != n2 && '=' !in n1 && '=' !in n2
    requires ApplyPairs(ps + [n1 + ['='] + v1, n2 + ['='] + v2], opts).ok
    ensures ApplyPairs(ps + [n2 + ['='] + v2, n1 + ['='] + v1] + qs, opts) ==
            ApplyPairs(ps + [n1 + ['='] + v1, n2 + ['='] + v2] + qs, opts)
  {
    var p1, p2 := n1 + ['='] + v1, n2 + ['='] + v2;
    PrefixSucceeds(ps, [p1, p2], opts);
    SwapFirstTwo(n1, v1, n2, v2, qs, ApplyPairs(ps, opts).options);
    SamePrefix(ps, [p2, p1], [p1, p2], qs, opts);
  }

  /** Suffixes that agree after a successful prefix agree with it in front. */
  lemma {:induction false} SamePrefix(ps: seq<string>, a: seq<string>, b: seq<string>, qs: seq<string>, opts: JdwpOptions)
    requires ApplyPairs(ps, opts).ok
    requires ApplyPairs(a + qs, ApplyPairs(ps, opts).options) == ApplyPairs(b + qs, ApplyPairs(ps, opts).options)
    ensures ApplyPairs(ps + a + qs, opts) == ApplyPairs(ps + b + qs, opts)
  {
    assert ps + a + qs == ps + (a + qs);
    assert ps + b + qs == ps + (b + qs);
    AfterPrefix(ps, a + qs, opts);
    AfterPrefix(ps, b + qs, opts);
  }

  lemma {:induction false} PrefixSucceeds(ps: seq<string>, qs: seq<string>, opts: JdwpOptions)
    requires ApplyPairs(ps + qs, opts).ok
    ensures ApplyPairs(ps, opts).ok && ApplyPairs(qs, ApplyPairs(ps, opts).options).ok
  {
    ApplyPairsConcat(ps, qs, opts);
  }

  lemma {:induction false} AfterPrefix(ps: seq<string>, qs: seq<string>, opts: JdwpOptions)
    requires ApplyPairs(ps, opts).ok
    ensures ApplyPairs(ps + qs, opts) == ApplyPairs(qs, ApplyPairs(ps, opts).options)
  {
    ApplyPairsConcat(ps, qs, opts);
  }

  lemma SwapFirstTwo(n1: string, v1: string, n2: string, v2: string,
                     qs: seq<string>, o: JdwpOptions)
    requires n1 != n2 && '=' !in n1 && '=' !in n2
    requires ApplyPairs([n1 + ['='] + v1, n2 + ['='] + v2], o).ok
    ensures ApplyPairs([n2 + ['='] + v2, n1 + ['='] + v1] + qs, o) ==
            ApplyPairs([n1 + ['='] + v1, n2 + ['='] + v2] + qs, o)
  {
    TwoPairsSucceed(n1, v1, n2, v2, o);
    DistinctKeysCommute(n1, v1, n2, v2, o);
    ApplyTwo(n1, v1, n2, v2, qs, o);
    ApplyTwo(n2, v2, n1, v1, qs, o);
  }

  /** Two pairs succeed together only if each succeeds in turn. */
  lemma TwoPairsSucceed(n1: string, v1: string, n2: string, v2: string, o: JdwpOptions)
    requires '=' !in n1 && '=' !in n2
    requires ApplyPairs([n1 + ['='] + v1, n2 + ['='] + v2], o).ok
    ensures ParseJdwpOption(n1, v1, o).ok
    ensures ParseJdwpOption(n2, v2, ParseJdwpOption(n1, v1, o).options).ok
  {
    var p1, p2 := n1 + ['='] + v1, n2 + ['='] + v2;
    PairParts(n1, v1);
    PairParts(n2, v2);
    assert [p1, p2] == [p1] + [p2] && [p2] == [p2] + [];
    ApplyFirst(p1, n1, v1, [p2], o);
    ApplyFirst(p2, n2, v2, [], ParseJdwpOption(n1, v1, o).options);
  }

  /** Two pairs that succeed in turn at the front of a sequence. */
  lemma ApplyTwo(n1: string, v1: string, n2: string, v2: string, qs: seq<string>, o: JdwpOptions)
    requires '=' !in n1 && '=' !in n2
    requires ParseJdwpOption(n1, v1, o).ok
    requires ParseJdwpOption(n2, v2, ParseJdwpOption(n1, v1, o).options).ok
    ensures ApplyPairs([n1 + ['='] + v1, n2 + ['='] + v2] + qs, o) ==
            ApplyPairs(qs, ParseJdwpOption(n2, v2, ParseJdwpOption(n1, v1, o).options).options)
  {
    var p1, p2 := n1 + ['='] + v1, n2 + ['='] + v2;
    PairParts(n1, v1);
    PairParts(n2, v2);
    assert [p1, p2] + qs == [p1] + ([p2] + qs);
    ApplyFirst(p1, n1, v1, [p2] + qs, o);
    ApplyFirst(p2, n2, v2, qs, ParseJdwpOption(n1, v1, o).options);
  }

  lemma ApplyFirst(p: string, name: string, value: string, qs: seq<string>, opts: JdwpOptions)
    requires NameAndValue(p) == Some((name, value))
    ensures ApplyPairs([p] + qs, opts) ==
            (var r := ParseJdwpOption(name, value, opts); if r.ok then ApplyPairs(qs, r.options) else r)
  {
    assert ([p] + qs)[0] == p && ([p] + qs)[1..] == qs;
  }

  lemma PairParts(name: string, value: string)
    requires '=' !in name
    ensures NameAndValue(name + ['='] + value) == Some((name, value))
  {
    var p := name + ['='] + value;
    FindCharConcat(name, '=', value);
    assert p[..|name|] == name && p[|name| + 1..] == value;
  }

  /** A key given twice, with pairs of other keys between the two and all
      of them succeeding, ends with its later value: the earlier pair can be
      dropped without changing the outcome. */
  lemma LaterDuplicateWins(ps: seq<string>, n: string, v1: string, ms: seq<string>, v2: string,
                           qs: seq<string>, opts: JdwpOptions)
    requires '=' !in n
    requires forall j :: 0 <= j < |ms| ==> NameAndValue(ms[j]).Some? && NameAndValue(ms[j]).value.0 != n
    requires ApplyPairs(ps + [n + ['='] + v1] + ms + [n + ['='] + v2], opts).ok
    ensures ApplyPairs(ps + [n + ['='] + v1] + ms + [n + ['='] + v2] + qs, opts) ==
            ApplyPairs(ps + ms + [n + ['='] + v2] + qs, opts)
  {
    var p1, p2 := n + ['='] + v1, n + ['='] + v2;
    PairParts(n, v1);
    PairParts(n, v2);
    assert ps + [p1] + ms + [p2] == ps + ([p1] + ms + [p2]);
    assert ps + [p1] + ms + [p2] + qs == ps + ([p1] + ms + [p2]) + qs;
    assert ps + ms + [p2] + qs == ps + (ms + [p2]) + qs;
    DuplicateAfterPrefix(ps, p1, n, v1, ms, p2, v2, qs, opts);
  }

  lemma {:induction false} DuplicateAfterPrefix(ps: seq<string>, p1: string, n: string, v1: string,
                                                ms: seq<string>, p2: string, v2: string,
                                                qs: seq<string>, opts: JdwpOptions)
    requires NameAndValue(p1) == Some((n, v1)) && NameAndValue(p2) == Some((n, v2))
    requires forall j :: 0 <= j < |ms| ==> NameAndValue(ms[j]).Some? && NameAndValue(ms[j]).value.0 != n
    requires ApplyPairs(ps + ([p1] + ms + [p2]), opts).ok
    ensures ApplyPairs(ps + ([p1] + ms + [p2]) + qs, opts) == ApplyPairs(ps + (ms + [p2]) + qs, opts)
  {
    PrefixSucceeds(ps, [p1] + ms + [p2], opts);
    DuplicateAtFront(p1, n, v1, ms, p2, v2, qs, ApplyPairs(ps, opts).options);
    SamePrefix(ps, [p1] + ms + [p2], ms + [p2], qs, opts);
  }

  /** `LaterDuplicateWins` at the front of the sequence, by induction on the
      pairs in between: each is swapped in front of the earlier duplicate. */
  lemma {:induction false} DuplicateAtFront(p1: string, n: string, v1: string, ms: seq<string>,
                                            p2: string, v2: string, qs: seq<string>, o: JdwpOptions)
    requires NameAndValue(p1) == Some((n, v1)) && NameAndValue(p2) == Some((n, v2))
    requires forall j :: 0 <= j < |ms| ==> NameAndValue(ms[j]).Some? && NameAndValue(ms[j]).value.0 != n
    requires ApplyPairs([p1] + ms + [p2], o).ok
    ensures ApplyPairs([p1] + ms + [p2] + qs, o) == ApplyPairs(ms + [p2] + qs, o)
    decreases |ms|
  {
    if ms == [] {
      assert [p1] + ms + [p2] == [p1] + [p2] && ms + [p2] + qs == [p2] + qs;
      DuplicateBase(p1, n, v1, p2, v2, qs, o);
    } else {
      var (nm, vm) := NameAndValue(ms[0]).value;
      DuplicateStepBefore(p1, n, v1, ms, nm, vm, p2, o);
      assert forall j :: 0 <= j < |ms[1..]| ==> ms[1..][j] == ms[j + 1];
      DuplicateAtFront(p1, n, v1, ms[1..], p2, v2, qs, ParseJdwpOption(nm, vm, o).options);
      DuplicateStepAfter(p1, n, v1, ms, nm, vm, p2, qs, o);
    }
  }

  /** The same key twice in a row at the front. */
  lemma DuplicateBase(p1: string, n: string, v1: string, p2: string, v2: string,
                      qs: seq<string>, o: JdwpOptions)
    requires NameAndValue(p1) == Some((n, v1)) && NameAndValue(p2) == Some((n, v2))
    requires ApplyPairs([p1] + [p2], o).ok
    ensures ApplyPairs([p1] + [p2] + qs, o) == ApplyPairs([p2] + qs, o)
  {
    ApplyFirst(p1, n, v1, [p2], o);
    assert [p1] + [p2] + qs == [p1] + ([p2] + qs);
    ApplyFirst(p1, n, v1, [p2] + qs, o);
    DuplicateAdjacent(p2, n, v1, v2, qs, o);
  }

  /** Before the inductive call: after the first pair between the two, the
      rest still succeeds. */
  lemma DuplicateStepBefore(p1: string, n: string, v1: string, ms: seq<string>, nm: string, vm: string,
                            p2: string, o: JdwpOptions)
    requires NameAndValue(p1) == Some((n, v1))
    requires ms != [] && NameAndValue(ms[0]) == Some((nm, vm)) && nm != n
    requires ApplyPairs([p1] + ms + [p2], o).ok
    ensures ParseJdwpOption(nm, vm, o).ok
    ensures ApplyPairs([p1] + ms[1..] + [p2], ParseJdwpOption(nm, vm, o).options).ok
  {
    var t := ms[1..] + [p2];
    PairsAroundFirst(p1, ms, p2, []);
    ApplyFirst(p1, n, v1, [ms[0]] + t, o);
    SwapPastOther(p1, n, v1, ms[0], nm, vm, t, t, o);
  }

  /** After the inductive call: the result for the rest gives the result
      for the whole. */
  lemma DuplicateStepAfter(p1: string, n: string, v1: string, ms: seq<string>, nm: string, vm: string,
                           p2: string, qs: seq<string>, o: JdwpOptions)
    requires NameAndValue(p1) == Some((n, v1))
    requires ms != [] && NameAndValue(ms[0]) == Some((nm, vm)) && nm != n
    requires ApplyPairs([p1] + ms + [p2], o).ok
    requires ApplyPairs([p1] + ms[1..] + [p2] + qs, ParseJdwpOption(nm, vm, o).options) ==
             ApplyPairs(ms[1..] + [p2] + qs, ParseJdwpOption(nm, vm, o).options)
    ensures ApplyPairs([p1] + ms + [p2] + qs, o) == ApplyPairs(ms + [p2] + qs, o)
  {
    var m := ms[0];
    var t, u := ms[1..] + [p2], ms[1..] + [p2] + qs;
    PairsAroundFirst(p1, ms, p2, qs);
    ApplyFirst(p1, n, v1, [m] + t, o);
    ApplyFirst(p1, n, v1, [m] + u, o);
    SwapPastOther(p1, n, v1, m, nm, vm, t, u, o);
    ApplyFirst(m, nm, vm, u, o);
  }

  /** How the sequences of `DuplicateAtFront` regroup around the first pair
      between the two duplicates. */
  lemma PairsAroundFirst(p1: string, ms: seq<string>, p2: string, qs: seq<string>)
    requires ms != []
    ensures [p1] + ms + [p2] == [p1] + ([ms[0]] + (ms[1..] + [p2]))
    ensures [p1] + ms + [p2] + qs == [p1] + ([ms[0]] + (ms[1..] + [p2] + qs))
    ensures ms + [p2] + qs == [ms[0]] + (ms[1..] + [p2] + qs)
    ensures [p1] + ms[1..] + [p2] == [p1] + (ms[1..] + [p2])
    ensures [p1] + ms[1..] + [p2] + qs == [p1] + (ms[1..] + [p2] + qs)
  {
    assert ms == [ms[0]] + ms[1..];
  }

  /** The base case: the same key twice in a row. */
  lemma DuplicateAdjacent(p2: string, n: string, v1: string, v2: string, qs: seq<string>, o: JdwpOptions)
    requires NameAndValue(p2) == Some((n, v2))
    requires ParseJdwpOption(n, v1, o).ok
    requires ApplyPairs([p2], ParseJdwpOption(n, v1, o).options).ok
    ensures ApplyPairs([p2] + qs, ParseJdwpOption(n, v1, o).options) == ApplyPairs([p2] + qs, o)
  {
    var o1 := ParseJdwpOption(n, v1, o).options;
    assert [p2] == [p2] + [];
    ApplyFirst(p2, n, v2, [], o1);
    DuplicateKeyOverwrites(n, v1, v2, o);
    ApplyFirst(p2, n, v2, qs, o1);
    ApplyFirst(p2, n, v2, qs, o);
  }

  /** The inductive step: a successful pair `m` of another key that follows
      `p1` can go in front of it, and the sequences after them, `t` and `u`,
      then start from the same record. */
  lemma SwapPastOther(p1: string, n: string, v1: string, m: string, nm: string, vm: string,
                      t: seq<string>, u: seq<string>, o: JdwpOptions)
    requires NameAndValue(p1) == Some((n, v1)) && NameAndValue(m) == Some((nm, vm)) && nm != n
    requires ParseJdwpOption(n, v1, o).ok
    requires ApplyPairs([m] + t, ParseJdwpOption(n, v1, o).options).ok
    ensures ParseJdwpOption(nm, vm, o).ok
    ensures ApplyPairs([p1] + t, ParseJdwpOption(nm, vm, o).options).ok
    ensures ApplyPairs([m] + u, ParseJdwpOption(n, v1, o).options) ==
            ApplyPairs([p1] + u, ParseJdwpOption(nm, vm, o).options)
  {
    var o1 := ParseJdwpOption(n, v1, o).options;
    var o' := ParseJdwpOption(nm, vm, o).options;
    ApplyFirst(m, nm, vm, t, o1);
    DistinctKeysCommute(n, v1, nm, vm, o);
    ApplyFirst(p1, n, v1, t, o');
    ApplyFirst(m, nm, vm, u, o1);
    ApplyFirst(p1, n, v1, u, o');
  }

  /** Without a `transport` pair the transport is whatever the record held. */
  lemma {:induction false} TransportKeptWithoutKey(ps: seq<string>, opts: JdwpOptions)
    requires forall i :: 0 <= i < |ps| ==> NameAndValue(ps[i]).None? || NameAndValue(ps[i]).value.0 != "transport"
    ensures ApplyPairs(ps, opts).options.transport == opts.transport
    decreases |ps|
  {
    if ps != [] {
      match NameAndValue(ps[0])
      case None =>
      case Some((name, value)) =>
        var r := ParseJdwpOption(name, value, opts);
        if r.ok {
          assert forall i :: 0 <= i < |ps[1..]| ==> ps[1..][i] == ps[i + 1];
          TransportKeptWithoutKey(ps[1..], r.options);
        }
    }
  }

  /** The documented server example parses to a socket server on port 8000. */
  lemma ServerExample(init: JdwpOptions)
    ensures ParseOptions("transport=dt_socket,address=8000,server=y", init) ==
            ParseResult(true, init.(transport := TransportSocket, host := [], port := 8000, server := true))
  {
    ServerExampleSplit();
    ServerExamplePairs(init);
  }

  lemma ServerExampleSplit()
    ensures Split("transport=dt_socket,address=8000,server=y", ',') ==
            ["transport=dt_socket", "address=8000", "server=y"]
  {
    ServerExampleFields();
    SplitThree("transport=dt_socket", "address=8000", "server=y", ',');
  }

  lemma ServerExampleFields()
    ensures "transport=dt_socket,address=8000,server=y" ==
            "transport=dt_socket" + [','] + "address=8000" + [','] + "server=y"
    ensures ',' !in "transport=dt_socket" && ',' !in "address=8000" && ',' !in "server=y"
  {
  }

  lemma ServerExamplePairs(init: JdwpOptions)
    ensures ApplyPairs(["transport=dt_socket", "address=8000", "server=y"], init) ==
            ParseResult(true, init.(transport := TransportSocket, host := [], port := 8000, server := true))
  {
    var t, a, v := "transport=dt_socket", "address=8000", "server=y";
    var o1 := init.(transport := TransportSocket);
    var o2 := o1.(host := [], port := 8000);
    var o3 := o2.(server := true);
    ServerExampleNames();
    assert [t, a, v] == [t] + [a, v] && [a, v] == [a] + [v] && [v] == [v] + [];
    TransportExample(init);
    ApplyExamplePair("transport", "dt_socket", [a, v], init, o1);
    AddressExample(o1);
    ApplyExamplePair("address", "8000", [v], o1, o2);
    ServerFlagExample(o2);
    ApplyExamplePair("server", "y", [], o2, o3);
  }

  lemma ServerExampleNames()
    ensures "transport=dt_socket" == "transport" + ['='] + "dt_socket"
    ensures "address=8000" == "address" + ['='] + "8000"
    ensures "server=y" == "server" + ['='] + "y"
  {
  }

  lemma TransportExample(o: JdwpOptions)
    ensures '=' !in "transport"
    ensures ParseJdwpOption("transport", "dt_socket", o) == ParseResult(true, o.(transport := TransportSocket))
  {
  }

  lemma ServerFlagExample(o: JdwpOptions)
    ensures '=' !in "server"
    ensures ParseJdwpOption("server", "y", o) == ParseResult(true, o.(server := true))
  {
  }

  lemma AddressExample(o: JdwpOptions)
    ensures '=' !in "address"
    ensures ParseJdwpOption("address", "8000", o) == ParseResult(true, o.(host := [], port := 8000))
  {
    assert DecimalString(8000) == "8000";
    AddressPortOnly(8000, o);
  }

  /** Three separator-free fields joined by single separators split back
      into those fields. */
  lemma SplitThree(t: string, a: string, v: string, sep: char)
    requires t != [] && a != [] && v != []
    requires sep !in t && sep !in a && sep !in v
    ensures Split(t + [sep] + a + [sep] + v, sep) == [t, a, v]
  {
    SplitTwo(a, v, sep);
    SplitAtSeparator(t, sep, a + [sep] + v);
    SplitField(t, sep);
    assert t + [sep] + a + [sep] + v == t + [sep] + (a + [sep] + v);
  }

  lemma SplitTwo(a: string, v: string, sep: char)
    requires a != [] && v != []
    requires sep !in a && sep !in v
    ensures Split(a + [sep] + v, sep) == [a, v]
  {
    SplitAtSeparator(a, sep, v);
    SplitField(a, sep);
    SplitField(v, sep);
  }

  /** One step of an example: the pair `name=value` moves `o` to `o'`. */
  lemma ApplyExamplePair(name: string, value: string, rest: seq<string>, o: JdwpOptions, o': JdwpOptions)
    requires '=' !in name
    requires ParseJdwpOption(name, value, o) == ParseResult(true, o')
    ensures ApplyPairs([name + ['='] + value] + rest, o) == ApplyPairs(rest, o')
  {
    PairParts(name, value);
    ApplyFirst(name + ['='] + value, name, value, rest, o);
  }

  /** Without a transport pair, a record that starts with no transport
      passes: only an unsupported transport name is rejected. */
  lemma NoTransportNamed(init: JdwpOptions)
    requires init.transport == TransportNone
    ensures ParseOptions("server=y", init) == ParseResult(true, init.(server := true))
  {
    NoTransportPieces(init);
  }

  lemma NoTransportPieces(init: JdwpOptions)
    ensures Split("server=y", ',') == ["server=y"]
    ensures ApplyPairs(["server=y"], init) == ParseResult(true, init.(server := true))
  {
    var v := "server=y";
    assert ',' !in v;
    SplitField(v, ',');
    ServerExampleNames();
    ServerFlagExample(init);
    ApplyExamplePair("server", "y", [], init, init.(server := true));
    assert [v] == [v] + [];
  }
}
