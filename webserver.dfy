// The configuration form of the device's own web page (main/webserver.c):
// `url_decode` into a fixed-size field, and the `&`-separated form body
// that `config_post_handler` turns into a `device_config_t`.

module UrlEncodedServer {
  import opened Bytes
  import opened CString

  // ----- url_decode --------------------------------------------------------

  /** The value of a hexadecimal digit of either case. */
  function HexDigitValue(c: char): (r: Option<nat>)
    ensures r.Some? ==> r.value < 16
  {
    if '0' <= c <= '9' then Some(c as int - '0' as int)
    else if 'a' <= c <= 'f' then Some(c as int - 'a' as int + 10)
    else if 'A' <= c <= 'F' then Some(c as int - 'A' as int + 10)
    else None
  }

  /** `sscanf(p, "%2x", &v)` on the text `rest` after a `%`. Two hex digits
      give their value; what the C library makes of anything else is left to
      `scan`, which sees the whole remaining text: `%2x` skips leading white
      space before counting its width, so it may read past the two
      characters. */
  function HexPair(rest: seq<char>, scan: seq<char> -> byte): byte
    requires |rest| >= 2
  {
    match (HexDigitValue(rest[0]), HexDigitValue(rest[1]))
    case (Some(hi), Some(lo)) => 16 * hi + lo
    case _ => scan(rest)
  }

  /** What `url_decode` writes before the terminating NUL when the source
      text is `s` and `room` characters of the destination are still free. */
  function Decode(s: seq<char>, room: nat, scan: seq<char> -> byte): (r: seq<char>)
    ensures |r| <= room
    decreases |s|
  {
    if room == 0 || At(s, 0) == NUL then []
    else if s[0] == '%' && At(s, 1) != NUL && At(s, 2) != NUL then
      [HexPair(s[1..], scan) as char] + Decode(s[3..], room - 1, scan)
    else if s[0] == '+' then [' '] + Decode(s[1..], room - 1, scan)
    else [s[0]] + Decode(s[1..], room - 1, scan)
  }

  /** `url_decode(src, dest, dest_size)`: at most `dest_size - 1` decoded
      characters, always followed by a NUL; the rest of `dest` is left alone. */
  method UrlDecode(src: seq<char>, dest: array<char>, scan: seq<char> -> byte)
    requires dest.Length >= 1
    modifies dest
    ensures var d := Decode(src, dest.Length - 1, scan);
      dest[..|d|] == d && dest[|d|] == NUL && dest[|d| + 1..] == old(dest[|d| + 1..])
  {
    ghost var whole := Decode(src, dest.Length - 1, scan);
    ghost var orig := dest[..];
    ghost var written: seq<char>, room: nat, pending := [], dest.Length - 1, whole;
    assert src[0..] == src;
    var i, j := 0, 0;
    while At(src, i) != NUL && j < dest.Length - 1
      invariant i <= |src| && j <= dest.Length - 1 && |written| == j && room == dest.Length - 1 - j
      invariant dest[..j] == written
      invariant pending == Decode(src[i..], room, scan)
      invariant written + pending == whole
      invariant dest[j..] == orig[j..]
      decreases |src| - i
    {
      var out, width := DecodeOne(src, i, room, scan);
      ghost var pending' := Decode(src[i + width..], room - 1, scan);
      Emit(written, out, pending, pending', whole);
      dest[j] := out;
      written, room, pending := written + [out], room - 1, pending';
      assert dest[..j + 1] == written;
      assert dest[j + 1..] == orig[j + 1..] by {
        assert dest[j + 1..] == old(dest[j..])[1..] && orig[j + 1..] == orig[j..][1..];
      }
      i, j := i + width, j + 1;
    }
    DecodeDone(src, i, room, scan);
    dest[j] := NUL;
  }

  /** One pass of the `url_decode` loop: the character it writes and how
      many source characters it consumes. */
  method DecodeOne(src: seq<char>, i: nat, ghost room: nat, scan: seq<char> -> byte) returns (out: char, width: nat)
    requires At(src, i) != NUL && room > 0
    ensures 1 <= width && i + width <= |src|
    ensures Decode(src[i..], room, scan) == [out] + Decode(src[i + width..], room - 1, scan)
  {
    DecodeStep(src, i, room, scan);
    if src[i] == '%' && At(src, i + 1) != NUL && At(src, i + 2) != NUL {
      out, width := HexPair(src[i + 1..], scan) as char, 3;
    } else if src[i] == '+' {
      out, width := ' ', 1;
    } else {
      out, width := src[i], 1;
    }
  }

  lemma {:induction false} DecodeDone(src: seq<char>, i: nat, room: nat, scan: seq<char> -> byte)
    requires i <= |src| && (room == 0 || At(src, i) == NUL)
    ensures Decode(src[i..], room, scan) == []
  {
    assert At(src[i..], 0) == At(src, i);
  }

  /** Moving one decoded character from what is still to be written to what
      has been written keeps the whole. */
  lemma Emit(written: seq<char>, out: char, rest: seq<char>, rest': seq<char>, whole: seq<char>)
    requires written + rest == whole && rest == [out] + rest'
    ensures (written + [out]) + rest' == whole
  {
  }

  /** `Decode` of the text from position `i` on, one `url_decode` step at a time. */
  lemma {:induction false} DecodeStep(src: seq<char>, i: nat, room: nat, scan: seq<char> -> byte)
    requires i <= |src|
    ensures Decode(src[i..], room, scan) ==
      if room == 0 || At(src, i) == NUL then []
      else if src[i] == '%' && At(src, i + 1) != NUL && At(src, i + 2) != NUL then
        [HexPair(src[i + 1..], scan) as char] + Decode(src[i + 3..], room - 1, scan)
      else if src[i] == '+' then [' '] + Decode(src[i + 1..], room - 1, scan)
      else [src[i]] + Decode(src[i + 1..], room - 1, scan)
  {
    var rest := src[i..];
    assert At(rest, 0) == At(src, i) && At(rest, 1) == At(src, i + 1) && At(rest, 2) == At(src, i + 2);
    if At(rest, 0) != NUL {
      assert rest[1..] == src[i + 1..];
      if At(rest, 2) != NUL {
        assert rest[3..] == src[i + 3..];
      }
    }
  }

  /** Text in which no character is rewritten: no NUL, no `+`, and a `%` only
      where fewer than two characters follow it. */
  predicate Literal(s: seq<char>)
  {
    NUL !in s && '+' !in s && forall k :: 0 <= k < |s| && s[k] == '%' ==> k + 2 >= |s|
  }

  /** Literal text decodes to itself, cut to the room there is. */
  lemma {:induction false} LiteralDecodesToPrefix(s: seq<char>, room: nat, scan: seq<char> -> byte)
    requires Literal(s)
    ensures Decode(s, room, scan) == s[..Min(room, |s|)]
    decreases |s|
  {
    if room > 0 && s != [] {
      assert s[0] in s;
      assert Literal(s[1..]) by {
        forall k | 0 <= k < |s[1..]| && s[1..][k] == '%'
          ensures k + 2 >= |s[1..]|
        {
          assert s[k + 1] == '%';
        }
        assert forall c :: c in s[1..] ==> c in s;
      }
      LiteralDecodesToPrefix(s[1..], room - 1, scan);
      if s[0] == '%' {
        assert At(s, 2) == NUL;
      }
    }
  }

  /** The characters a form encoder leaves as they are. */
  predicate Unreserved(c: char)
  {
    'a' <= c <= 'z' || 'A' <= c <= 'Z' || '0' <= c <= '9' || c == '-' || c == '_' || c == '.' || c == '~'
  }

  function HexDigitChar(d: nat): (c: char)
    requires d < 16
    ensures HexDigitValue(c) == Some(d) && c != NUL
  {
    if d < 10 then ('0' as int + d) as char else ('A' as int + d - 10) as char
  }

  predicate Octets(s: seq<char>)
  {
    forall k :: 0 <= k < |s| ==> s[k] as int < 256
  }

  /** `application/x-www-form-urlencoded` encoding of one character. */
  function EncodeChar(c: char): (r: seq<char>)
    requires c as int < 256
    ensures 1 <= |r| && NUL !in r && '&' !in r
  {
    if Unreserved(c) then [c]
    else if c == ' ' then ['+']
    else ['%', HexDigitChar(c as int / 16), HexDigitChar(c as int % 16)]
  }

  /** `application/x-www-form-urlencoded` encoding of a text, as a browser
      submits a form field. */
  function UrlEncode(s: seq<char>): (r: seq<char>)
    requires Octets(s)
    ensures NUL !in r && '&' !in r
  {
    if s == [] then [] else EncodeChar(s[0]) + UrlEncode(s[1..])
  }

  /** `url_decode` turns the encoding of one character back into it. */
  lemma {:induction false} DecodeEncodeChar(c: char, tail: seq<char>, room: nat, scan: seq<char> -> byte)
    requires c as int < 256 && room > 0
    ensures Decode(EncodeChar(c) + tail, room, scan) == [c] + Decode(tail, room - 1, scan)
  {
    var ec := EncodeChar(c);
    var e := ec + tail;
    if Unreserved(c) || c == ' ' {
      assert e[1..] == tail;
    } else {
      assert e[3..] == tail;
      assert At(e, 1) == ec[1] && At(e, 2) == ec[2];
      assert HexPair(ec[1..], scan) == c as int;
    }
  }

  /** `url_decode` undoes the browser's encoding of any text of 8-bit
      characters, cut to the room there is. */
  lemma {:induction false} DecodeUrlEncode(s: seq<char>, room: nat, scan: seq<char> -> byte)
    requires Octets(s)
    ensures Decode(UrlEncode(s), room, scan) == s[..Min(room, |s|)]
    decreases |s|
  {
    if s != [] && room > 0 {
      DecodeEncodeChar(s[0], UrlEncode(s[1..]), room, scan);
      DecodeUrlEncode(s[1..], room - 1, scan);
      assert s[..Min(room, |s|)] == [s[0]] + s[1..][..Min(room - 1, |s| - 1)];
    }
  }

  // ----- the configuration form -------------------------------------------

  /** `device_config_t` (main/webserver.h), with each text field as the C
      string it holds. */
  datatype DeviceConfig = DeviceConfig(ssid: seq<char>, password: seq<char>, serverIp: seq<char>, port: u16, softap: bool)

  /** `sizeof` of the three text fields of `device_config_t`. */
  const SSID_SIZE: nat := 33
  const PASSWORD_SIZE: nat := 65
  const SERVER_IP_SIZE: nat := 16

  /** `new_config = {0}` with the compiled-in defaults copied into it by
      `strncpy(field, default, sizeof(field) - 1)`. */
  function Initial(defaults: DeviceConfig): DeviceConfig
  {
    DeviceConfig(Bounded(defaults.ssid, SSID_SIZE - 1), Bounded(defaults.password, PASSWORD_SIZE - 1),
                 Bounded(defaults.serverIp, SERVER_IP_SIZE - 1), defaults.port, defaults.softap)
  }

  /** The end of the `&`-free run at the front of `s`. */
  function TokenEnd(s: seq<char>): (r: nat)
    ensures r <= |s| && (r < |s| ==> s[r] == '&') && '&' !in s[..r]
  {
    if s == [] || s[0] == '&' then 0 else 1 + TokenEnd(s[1..])
  }

  /** The tokens `strtok_r(data, "&", ...)` returns one after another: the
      non-empty runs between `&` characters. */
  function Tokens(s: seq<char>): (r: seq<seq<char>>)
    ensures forall k :: 0 <= k < |r| ==> r[k] != [] && '&' !in r[k]
    decreases |s|
  {
    if s == [] then []
    else if s[0] == '&' then Tokens(s[1..])
    else
      var e := TokenEnd(s);
      [s[..e]] + Tokens(s[e..])
  }

  lemma {:induction false} TokenEndOfRun(t: seq<char>, rest: seq<char>)
    requires '&' !in t && (rest == [] || rest[0] == '&')
    ensures TokenEnd(t + rest) == |t|
    decreases |t|
  {
    if t != [] {
      assert (t + rest)[1..] == t[1..] + rest;
      assert t[0] in t;
      TokenEndOfRun(t[1..], rest);
    }
  }

  /** One `strtok_r` step from position `i`: a token that starts there runs to
      the next `&`. */
  lemma {:induction false} TokensStep(s: seq<char>, i: nat, e: nat)
    requires i < e <= |s| && (e < |s| ==> s[e] == '&')
    requires forall k :: i <= k < e ==> s[k] != '&'
    ensures Tokens(s[i..]) == [s[i..e]] + Tokens(s[e..])
  {
    assert '&' !in s[i..e];
    assert s[i..] == s[i..e] + s[e..];
    TokenEndOfRun(s[i..e], s[e..]);
    assert s[i..][TokenEnd(s[i..])..] == s[e..];
  }

  /** The fields of `device_config_t` a form key can set. */
  datatype Field = Ssid | Password | ServerIp | Port | Softap

  datatype Value = Text(text: seq<char>) | Number(number: int) | Flag(flag: bool)

  function Get(c: DeviceConfig, f: Field): Value
  {
    match f
    case Ssid => Text(c.ssid)
    case Password => Text(c.password)
    case ServerIp => Text(c.serverIp)
    case Port => Number(c.port)
    case Softap => Flag(c.softap)
  }

  /** The field a token names, by the first key prefix it starts with. */
  function KeyOf(t: seq<char>): Option<Field>
  {
    if StartsWith(t, "ssid=") then Some(Ssid)
    else if StartsWith(t, "password=") then Some(Password)
    else if StartsWith(t, "server_ip=") then Some(ServerIp)
    else if StartsWith(t, "server_port=") then Some(Port)
    else if StartsWith(t, "enable_ap=") then Some(Softap)
    else None
  }

  /** The C string left in a `size`-byte field after `url_decode` of `v`
      into it: a decoded `%00` ends it early. */
  function DecodeField(v: seq<char>, size: nat, scan: seq<char> -> byte): (r: seq<char>)
    requires size >= 1
    ensures |r| < size && NUL !in r
  {
    UpToNul(Decode(v, size - 1, scan))
  }

  /** The value a token assigns to the field it names. */
  function Assigned(t: seq<char>, scan: seq<char> -> byte): Value
    requires KeyOf(t).Some?
  {
    match KeyOf(t).value
    case Ssid => Text(DecodeField(t[5..], SSID_SIZE, scan))
    case Password => Text(DecodeField(t[9..], PASSWORD_SIZE, scan))
    case ServerIp => Text(DecodeField(t[10..], SERVER_IP_SIZE, scan))
    case Port => Number(ToU16(Atoi(t[12..])))
    case Softap => Flag(Atoi(t[10..]) != 0)
  }

  /** The body of the token loop of `config_post_handler` for one token: the
      named field takes the token's value, every other field and every
      unrecognised token leave the configuration as it was. */
  function ApplyToken(c: DeviceConfig, t: seq<char>, scan: seq<char> -> byte): DeviceConfig
  {
    if StartsWith(t, "ssid=") then c.(ssid := DecodeField(t[5..], SSID_SIZE, scan))
    else if StartsWith(t, "password=") then c.(password := DecodeField(t[9..], PASSWORD_SIZE, scan))
    else if StartsWith(t, "server_ip=") then c.(serverIp := DecodeField(t[10..], SERVER_IP_SIZE, scan))
    else if StartsWith(t, "server_port=") then c.(port := ToU16(Atoi(t[12..])))
    else if StartsWith(t, "enable_ap=") then c.(softap := Atoi(t[10..]) != 0)
    else c
  }

  /** `ApplyToken` sets the field the token names to the token's value and
      nothing else. */
  lemma ApplyTokenAssigns(c: DeviceConfig, t: seq<char>, f: Field, scan: seq<char> -> byte)
    ensures Get(ApplyToken(c, t, scan), f) == if KeyOf(t) == Some(f) then Assigned(t, scan) else Get(c, f)
  {
  }

  function ApplyAll(c: DeviceConfig, ts: seq<seq<char>>, scan: seq<char> -> byte): DeviceConfig
    decreases |ts|
  {
    if ts == [] then c else ApplyAll(ApplyToken(c, ts[0], scan), ts[1..], scan)
  }

  /** The configuration a form body yields from the defaults: the body is read
      as a C string and its tokens are applied in order. */
  function ParseForm(body: seq<char>, defaults: DeviceConfig, scan: seq<char> -> byte): DeviceConfig
  {
    ApplyAll(Initial(defaults), Tokens(UpToNul(body)), scan)
  }

  /** `config_post_handler`: no configuration (a 500 answer) when
      `httpd_req_recv` fails or returns nothing, otherwise the parsed form. */
  function PostSpec(received: Option<seq<char>>, defaults: DeviceConfig, scan: seq<char> -> byte): Option<DeviceConfig>
  {
    if received.None? || received.value == [] then None
    else Some(ParseForm(received.value, defaults, scan))
  }

  /** A field no token names keeps the value it started with. */
  lemma {:induction false} UnnamedFieldKept(c: DeviceConfig, ts: seq<seq<char>>, f: Field, scan: seq<char> -> byte)
    requires forall k :: 0 <= k < |ts| ==> KeyOf(ts[k]) != Some(f)
    ensures Get(ApplyAll(c, ts, scan), f) == Get(c, f)
    decreases |ts|
  {
    if ts != [] {
      assert KeyOf(ts[0]) != Some(f);
      ApplyTokenAssigns(c, ts[0], f, scan);
      UnnamedFieldKept(ApplyToken(c, ts[0], scan), ts[1..], f, scan);
    }
  }

  /** The last token that names a field decides its value. */
  lemma {:induction false} LastOccurrenceWins(c: DeviceConfig, ts: seq<seq<char>>, i: nat, f: Field, scan: seq<char> -> byte)
    requires i < |ts| && KeyOf(ts[i]) == Some(f)
    requires forall k :: i < k < |ts| ==> KeyOf(ts[k]) != Some(f)
    ensures Get(ApplyAll(c, ts, scan), f) == Assigned(ts[i], scan)
    decreases |ts|
  {
    var c1 := ApplyToken(c, ts[0], scan);
    ApplyTokenAssigns(c, ts[0], f, scan);
    if i == 0 {
      UnnamedFieldKept(c1, ts[1..], f, scan);
    } else {
      LastOccurrenceWins(c1, ts[1..], i - 1, f, scan);
    }
  }

  /** The key prefix of each field, as the page's form names it. */
  function KeyName(f: Field): (r: seq<char>)
    ensures r != [] && NUL !in r && '&' !in r
  {
    match f
    case Ssid => "ssid="
    case Password => "password="
    case ServerIp => "server_ip="
    case Port => "server_port="
    case Softap => "enable_ap="
  }

  /** No key is a prefix of another that the handler tries first, so a token
      that starts with a field's key names that field, whatever follows. */
  lemma {:induction false} KeyOfKeyName(f: Field, v: seq<char>)
    ensures KeyOf(KeyName(f) + v) == Some(f)
  {
    var t := KeyName(f) + v;
    assert t[..|KeyName(f)|] == KeyName(f);
    match f
    case Ssid =>
    case Password =>
      assert t[..5][0] != "ssid="[0];
    case ServerIp =>
      assert t[..5][1] != "ssid="[1] && t[..9][0] != "password="[0];
    case Port =>
      assert t[..5][1] != "ssid="[1] && t[..9][0] != "password="[0] && t[..10][7] != "server_ip="[7];
    case Softap =>
      assert t[..5][0] != "ssid="[0] && t[..9][0] != "password="[0];
      assert t[..10][0] != "server_ip="[0];
      assert !StartsWith(t, "server_port=") by {
        if |t| >= 12 {
          assert t[..12][0] != "server_port="[0];
        }
      }
  }

  /** A body that is one token is parsed as that token alone. */
  lemma {:induction false} ParseOneToken(t: seq<char>, defaults: DeviceConfig, scan: seq<char> -> byte)
    requires t != [] && NUL !in t && '&' !in t
    ensures ParseForm(t, defaults, scan) == ApplyToken(Initial(defaults), t, scan)
  {
    UpToNulOfPlain(t);
    TokenEndOfRun(t, []);
    assert t + [] == t && t[..|t|] == t && t[|t|..] == [];
    assert Tokens(t) == [t];
    assert [t][1..] == [];
    var c := Initial(defaults);
    assert ApplyAll(c, [t], scan) == ApplyAll(ApplyToken(c, t, scan), [], scan);
  }

  /** `(uint16_t)atoi(...)`: a port written in decimal is taken modulo 2^16. */
  lemma {:induction false} PortWrapsAround(n: nat, defaults: DeviceConfig, scan: seq<char> -> byte)
    ensures ParseForm("server_port=" + Decimal(n), defaults, scan).port == n % 0x1_0000
  {
    var t := KeyName(Port) + Decimal(n);
    DecimalPlain(n);
    ParseOneToken(t, defaults, scan);
    KeyOfKeyName(Port, Decimal(n));
    assert t[12..] == Decimal(n) + [];
    AtoiOfDecimal(n, []);
    ApplyTokenAssigns(Initial(defaults), t, Port, scan);
  }

  /** `enable_ap` is on exactly when `atoi` of its value is not zero. */
  lemma {:induction false} SoftapIffNonzero(v: seq<char>, defaults: DeviceConfig, scan: seq<char> -> byte)
    requires NUL !in v && '&' !in v
    ensures ParseForm("enable_ap=" + v, defaults, scan).softap <==> Atoi(v) != 0
  {
    var t := KeyName(Softap) + v;
    ParseOneToken(t, defaults, scan);
    KeyOfKeyName(Softap, v);
    assert t[10..] == v;
    ApplyTokenAssigns(Initial(defaults), t, Softap, scan);
  }

  lemma {:induction false} DecimalPlain(n: nat)
    ensures NUL !in Decimal(n) && '&' !in Decimal(n)
  {
    var d := Decimal(n);
    assert forall k :: 0 <= k < |d| ==> IsDigit(d[k]);
  }

  /** A configuration a user can enter on the page: 8-bit text without NUL,
      within the fields' `maxlength`. */
  predicate Enterable(c: DeviceConfig)
  {
    Octets(c.ssid) && Octets(c.password) && Octets(c.serverIp) &&
    NUL !in c.ssid && NUL !in c.password && NUL !in c.serverIp &&
    |c.ssid| < SSID_SIZE && |c.password| < PASSWORD_SIZE && |c.serverIp| < SERVER_IP_SIZE
  }

  /** What a browser submits for one field: the text fields encoded, the port
      in decimal and `enable_ap` as its option value `1` or `0`. */
  function FormValue(c: DeviceConfig, f: Field): (r: seq<char>)
    requires Enterable(c)
    ensures NUL !in r && '&' !in r
  {
    DecimalPlain(c.port);
    DecimalPlain(if c.softap then 1 else 0);
    match f
    case Ssid => UrlEncode(c.ssid)
    case Password => UrlEncode(c.password)
    case ServerIp => UrlEncode(c.serverIp)
    case Port => Decimal(c.port)
    case Softap => Decimal(if c.softap then 1 else 0)
  }

  /** The fields in the order the page lists them. */
  const PageOrder: seq<Field> := [Ssid, Password, ServerIp, Port, Softap]

  function PagePosition(f: Field): (k: nat)
    ensures k < |PageOrder| && PageOrder[k] == f
  {
    match f
    case Ssid => 0
    case Password => 1
    case ServerIp => 2
    case Port => 3
    case Softap => 4
  }

  lemma {:induction false} PositionOfPageOrder(k: nat)
    requires k < |PageOrder|
    ensures PagePosition(PageOrder[k]) == k
  {
    if k == 0 {
    } else if k == 1 {
    } else if k == 2 {
    } else if k == 3 {
    } else {
      assert k == 4;
    }
  }

  /** The tokens of the body a browser submits for the page's form. */
  function FormTokens(c: DeviceConfig): seq<seq<char>>
    requires Enterable(c)
  {
    seq(|PageOrder|, k requires 0 <= k < |PageOrder| => KeyName(PageOrder[k]) + FormValue(c, PageOrder[k]))
  }

  function Join(ts: seq<seq<char>>): seq<char>
    decreases |ts|
  {
    if |ts| <= 1 then (if ts == [] then [] else ts[0]) else ts[0] + "&" + Join(ts[1..])
  }

  /** `strtok_r` on `&` gives back the tokens that were joined with `&`. */
  lemma {:induction false} TokensOfJoin(ts: seq<seq<char>>)
    requires forall k :: 0 <= k < |ts| ==> ts[k] != [] && '&' !in ts[k]
    ensures Tokens(Join(ts)) == ts
    decreases |ts|
  {
    if ts != [] {
      var rest := if |ts| == 1 then [] else "&" + Join(ts[1..]);
      assert Join(ts) == ts[0] + rest;
      TokensStep(Join(ts), 0, |ts[0]|);
      assert Join(ts)[0..] == Join(ts) && Join(ts)[0..|ts[0]|] == ts[0];
      assert Join(ts)[|ts[0]|..] == rest;
      if |ts| > 1 {
        assert rest[1..] == Join(ts[1..]);
        TokensOfJoin(ts[1..]);
      }
    }
  }

  lemma {:induction false} JoinPlain(ts: seq<seq<char>>)
    requires forall k :: 0 <= k < |ts| ==> NUL !in ts[k]
    ensures NUL !in Join(ts)
    decreases |ts|
  {
    if |ts| > 1 {
      JoinPlain(ts[1..]);
    }
  }

  /** The decoded text of a browser-encoded field that fits is the text itself. */
  lemma {:induction false} FieldRoundTrip(s: seq<char>, size: nat, scan: seq<char> -> byte)
    requires size >= 1 && Octets(s) && NUL !in s && |s| < size
    ensures DecodeField(UrlEncode(s), size, scan) == s
  {
    DecodeUrlEncode(s, size - 1, scan);
    assert s[..Min(size - 1, |s|)] == s;
    UpToNulOfPlain(s);
  }

  /** Each submitted token names its field and carries back the field's value. */
  lemma {:induction false} FormTokenAssigns(c: DeviceConfig, f: Field, scan: seq<char> -> byte)
    requires Enterable(c)
    ensures KeyOf(KeyName(f) + FormValue(c, f)) == Some(f)
    ensures Assigned(KeyName(f) + FormValue(c, f), scan) == Get(c, f)
  {
    var v := FormValue(c, f);
    var t := KeyName(f) + v;
    KeyOfKeyName(f, v);
    assert t[|KeyName(f)|..] == v;
    match f
    case Ssid => FieldRoundTrip(c.ssid, SSID_SIZE, scan);
    case Password => FieldRoundTrip(c.password, PASSWORD_SIZE, scan);
    case ServerIp => FieldRoundTrip(c.serverIp, SERVER_IP_SIZE, scan);
    case Port => AtoiOfDecimal(c.port, []); assert v + [] == v;
    case Softap => AtoiOfDecimal(if c.softap then 1 else 0, []); assert v + [] == v;
  }

  lemma {:induction false} FormTokensPlain(c: DeviceConfig)
    requires Enterable(c)
    ensures forall k :: 0 <= k < |FormTokens(c)| ==>
      FormTokens(c)[k] != [] && NUL !in FormTokens(c)[k] && '&' !in FormTokens(c)[k]
  {
    var ts := FormTokens(c);
    forall k | 0 <= k < |ts|
      ensures ts[k] != [] && NUL !in ts[k] && '&' !in ts[k]
    {
      var key, v := KeyName(PageOrder[k]), FormValue(c, PageOrder[k]);
      assert ts[k] == key + v;
    }
  }

  /** Two configurations that agree on every field are the same. */
  lemma {:induction false} SameFields(r: DeviceConfig, c: DeviceConfig)
    requires forall f :: Get(r, f) == Get(c, f)
    ensures r == c
  {
    assert Get(r, Ssid) == Get(c, Ssid) && Get(r, Password) == Get(c, Password);
    assert Get(r, ServerIp) == Get(c, ServerIp) && Get(r, Port) == Get(c, Port) && Get(r, Softap) == Get(c, Softap);
  }

  /** Whatever the defaults, the device reads back exactly the configuration
      its page submits. */
  lemma {:induction false} FormRoundTrip(c: DeviceConfig, defaults: DeviceConfig, scan: seq<char> -> byte)
    requires Enterable(c)
    ensures ParseForm(Join(FormTokens(c)), defaults, scan) == c
  {
    var ts := FormTokens(c);
    FormTokensPlain(c);
    JoinPlain(ts);
    UpToNulOfPlain(Join(ts));
    TokensOfJoin(ts);
    assert Tokens(UpToNul(Join(ts))) == ts;
    var r := ApplyAll(Initial(defaults), ts, scan);
    forall k | 0 <= k < |ts|
      ensures KeyOf(ts[k]) == Some(PageOrder[k]) && Assigned(ts[k], scan) == Get(c, PageOrder[k])
    {
      FormTokenAssigns(c, PageOrder[k], scan);
    }
    forall f: Field
      ensures Get(r, f) == Get(c, f)
    {
      var i := PagePosition(f);
      forall k | i < k < |ts|
        ensures KeyOf(ts[k]) != Some(f)
      {
        PositionOfPageOrder(k);
      }
      LastOccurrenceWins(Initial(defaults), ts, i, f, scan);
    }
    SameFields(r, c);
  }

  // ----- config_post_handler ------------------------------------------------

  /** The `device_config_t new_config` the handler fills in. */
  class ConfigBuffer {
    const ssid: array<char>
    const password: array<char>
    const serverIp: array<char>
    var port: u16
    var softap: bool

    ghost predicate Valid()
      reads this
    {
      ssid.Length == SSID_SIZE && password.Length == PASSWORD_SIZE && serverIp.Length == SERVER_IP_SIZE &&
      ssid != password && ssid != serverIp && password != serverIp
    }

    /** The configuration the buffer holds, each text field read as a C string. */
    function View(): DeviceConfig
      reads this, ssid, password, serverIp
    {
      DeviceConfig(UpToNul(ssid[..]), UpToNul(password[..]), UpToNul(serverIp[..]), port, softap)
    }

    /** `device_config_t new_config = {0}` and the `strncpy` of the defaults. */
    constructor (defaults: DeviceConfig)
      ensures Valid() && fresh(ssid) && fresh(password) && fresh(serverIp)
      ensures View() == Initial(defaults)
    {
      var s := new char[SSID_SIZE](_ => NUL);
      var p := new char[PASSWORD_SIZE](_ => NUL);
      var a := new char[SERVER_IP_SIZE](_ => NUL);
      StrNCopy(s, defaults.ssid, SSID_SIZE - 1);
      StrNCopy(p, defaults.password, PASSWORD_SIZE - 1);
      StrNCopy(a, defaults.serverIp, SERVER_IP_SIZE - 1);
      StrNCopyView(s[..], defaults.ssid, SSID_SIZE - 1);
      StrNCopyView(p[..], defaults.password, PASSWORD_SIZE - 1);
      StrNCopyView(a[..], defaults.serverIp, SERVER_IP_SIZE - 1);
      ssid, password, serverIp := s, p, a;
      port, softap := defaults.port, defaults.softap;
    }

    /** `url_decode` of a value into one of the text fields. */
    static method DecodeInto(v: seq<char>, dest: array<char>, scan: seq<char> -> byte)
      requires dest.Length >= 1
      modifies dest
      ensures UpToNul(dest[..]) == DecodeField(v, dest.Length, scan)
    {
      UrlDecode(v, dest, scan);
      var d := Decode(v, dest.Length - 1, scan);
      CStringOfPrefix(dest[..], d);
    }

    /** One pass of the token loop (main/webserver.c:293-304). */
    method Apply(t: seq<char>, scan: seq<char> -> byte)
      requires Valid()
      modifies this, ssid, password, serverIp
      ensures Valid() && View() == ApplyToken(old(View()), t, scan)
    {
      if StartsWith(t, "ssid=") {
        DecodeInto(t[5..], ssid, scan);
      } else if StartsWith(t, "password=") {
        DecodeInto(t[9..], password, scan);
      } else if StartsWith(t, "server_ip=") {
        DecodeInto(t[10..], serverIp, scan);
      } else if StartsWith(t, "server_port=") {
        port := ToU16(Atoi(t[12..]));
      } else if StartsWith(t, "enable_ap=") {
        softap := Atoi(t[10..]) != 0;
      }
    }
  }

  /** `config_post_handler` up to the NVS write: `received` is what
      `httpd_req_recv` delivered (`None` for an error). */
  method ConfigPost(received: Option<seq<char>>, defaults: DeviceConfig, scan: seq<char> -> byte)
    returns (r: Option<DeviceConfig>)
    ensures r == PostSpec(received, defaults, scan)
  {
    if received.None? || |received.value| == 0 {
      return None;
    }
    var data := UpToNul(received.value);
    var cfg := new ConfigBuffer(defaults);
    var i := 0;
    assert data[0..] == data;
    while i < |data|
      invariant i <= |data|
      invariant cfg.Valid() && fresh(cfg.ssid) && fresh(cfg.password) && fresh(cfg.serverIp)
      invariant ApplyAll(cfg.View(), Tokens(data[i..]), scan) == ParseForm(received.value, defaults, scan)
    {
      if data[i] == '&' {
        assert data[i..][1..] == data[i + 1..];
        i := i + 1;
      } else {
        var e := i + 1;
        while e < |data| && data[e] != '&'
          invariant i < e <= |data|
          invariant forall k :: i <= k < e ==> data[k] != '&'
        {
          e := e + 1;
        }
        TokensStep(data, i, e);
        cfg.Apply(data[i..e], scan);
        i := e;
      }
    }
    return Some(cfg.View());
  }
}
