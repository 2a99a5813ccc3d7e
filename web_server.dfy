// The settings form of the second web server (main/web_server.c):
// `config_save_handler` finds each key with `strstr`, cuts each value at the
// next `&` by writing a NUL into the request buffer, and copies the values
// into the global `config_t`.

module KeySearchServer {
  import opened Bytes
  import opened CString

  /** `config_t` (main/config.h), each text field as the C string it holds. */
  datatype Settings = Settings(ssid: seq<char>, pass: seq<char>, serverIp: seq<char>, port: u16, baud: u32, softap: bool)

  /** `sizeof` of the three text fields of `config_t`. */
  const SSID_SIZE: nat := 32
  const PASS_SIZE: nat := 64
  const SERVER_IP_SIZE: nat := 16

  /** The five keys the handler insists on, and the optional check box. */
  const SSID_KEY := "ssid="
  const PASS_KEY := "password="
  const SERVER_IP_KEY := "server_ip="
  const PORT_KEY := "server_port="
  const BAUD_KEY := "uart_baud="
  const SOFTAP_KEY := "softap_enabled="

  /** Where the value that starts at `p` ends: the next `&`, or the end of
      the body. */
  function ValueEnd(body: seq<char>, p: nat): (e: nat)
    requires p <= |body|
    ensures p <= e <= |body| && (e < |body| ==> body[e] == '&')
    ensures forall k :: p <= k < e ==> body[k] != '&'
    decreases |body| - p
  {
    if p == |body| || body[p] == '&' then p else ValueEnd(body, p + 1)
  }

  function ValueAt(body: seq<char>, p: nat): seq<char>
    requires p <= |body|
  {
    body[p..ValueEnd(body, p)]
  }

  /** The raw values the handler extracts: no URL decoding is applied. */
  datatype Fields = Fields(ssid: seq<char>, pass: seq<char>, serverIp: seq<char>, port: seq<char>, baud: seq<char>, softap: bool)

  /** Where the value of `key` starts: just past its first occurrence. */
  function ValueStart(body: seq<char>, key: seq<char>): (r: Option<nat>)
    ensures r.Some? ==> |key| <= r.value <= |body| && OccursAt(body, key, r.value - |key|)
  {
    match Find(body, key)
    case None => None
    case Some(i) => Some(i + |key|)
  }

  /** The raw value of `key`: from just past its first occurrence to the
      next `&` or the end of the body. */
  function KeyValue(body: seq<char>, key: seq<char>): Option<seq<char>>
  {
    match ValueStart(body, key)
    case None => None
    case Some(p) => Some(ValueAt(body, p))
  }

  /** What the handler reads from a request body (the C string in the buffer):
      nothing unless all five keys occur. */
  function Extract(body: seq<char>): Option<Fields>
  {
    var s, pw, ip := KeyValue(body, SSID_KEY), KeyValue(body, PASS_KEY), KeyValue(body, SERVER_IP_KEY);
    var port, baud := KeyValue(body, PORT_KEY), KeyValue(body, BAUD_KEY);
    if s.Some? && pw.Some? && ip.Some? && port.Some? && baud.Some? then
      Some(Fields(s.value, pw.value, ip.value, port.value, baud.value, Find(body, SOFTAP_KEY).Some?))
    else None
  }

  /** The stores into `config_t`: text by `strncpy(field, v, sizeof(field) - 1)`,
      numbers by `atoi` converted to the field's width. */
  function Stored(f: Fields): (r: Settings)
    ensures |r.ssid| < SSID_SIZE && |r.pass| < PASS_SIZE && |r.serverIp| < SERVER_IP_SIZE
  {
    Settings(Bounded(f.ssid, SSID_SIZE - 1), Bounded(f.pass, PASS_SIZE - 1), Bounded(f.serverIp, SERVER_IP_SIZE - 1),
             ToU16(Atoi(f.port)), ToU32(Atoi(f.baud)), f.softap)
  }

  /** `config_save_handler`: the new settings and whether they were saved;
      a failed receive or a missing key answers 500 and keeps `cur`. */
  function SaveSpec(cur: Settings, received: Option<seq<char>>): (r: (Settings, bool))
    ensures !r.1 ==> r.0 == cur
    ensures r.1 ==> |r.0.ssid| < SSID_SIZE && |r.0.pass| < PASS_SIZE && |r.0.serverIp| < SERVER_IP_SIZE
  {
    if received.None? || received.value == [] then (cur, false)
    else match Extract(UpToNul(received.value))
      case None => (cur, false)
      case Some(f) => (Stored(f), true)
  }

  /** The settings are saved exactly when all five keys occur in the body. */
  lemma {:induction false} SavedIffAllKeys(cur: Settings, received: seq<char>)
    ensures SaveSpec(cur, Some(received)).1 <==>
      var body := UpToNul(received);
      (exists i :: OccursAt(body, SSID_KEY, i)) && (exists i :: OccursAt(body, PASS_KEY, i)) &&
      (exists i :: OccursAt(body, SERVER_IP_KEY, i)) && (exists i :: OccursAt(body, PORT_KEY, i)) &&
      (exists i :: OccursAt(body, BAUD_KEY, i))
  {
    var body := UpToNul(received);
    if received == [] {
      assert body == [];
      assert !OccursAt(body, SSID_KEY, 0);
    }
    FoundIffOccurs(body, SSID_KEY);
    FoundIffOccurs(body, PASS_KEY);
    FoundIffOccurs(body, SERVER_IP_KEY);
    FoundIffOccurs(body, PORT_KEY);
    FoundIffOccurs(body, BAUD_KEY);
  }

  /** `strstr` finds a key exactly when it occurs somewhere. */
  lemma FoundIffOccurs(body: seq<char>, key: seq<char>)
    ensures Find(body, key).Some? <==> exists i :: OccursAt(body, key, i)
  {
    if Find(body, key).Some? {
      assert OccursAt(body, key, Find(body, key).value);
    }
  }

  /** Text added after the body does not move the first occurrence of a key
      already in the body. */
  lemma {:induction false} FindExtends(body: seq<char>, key: seq<char>, tail: seq<char>, i: nat)
    requires OccursAt(body, key, i)
    ensures Find(body + tail, key) == Find(body, key)
  {
    var j := Find(body, key).value;
    assert OccursAt(body + tail, key, j) by {
      assert (body + tail)[j..j + |key|] == body[j..j + |key|];
    }
    forall k | 0 <= k < j
      ensures !OccursAt(body + tail, key, k)
    {
      assert !OccursAt(body, key, k);
      assert (body + tail)[k..k + |key|] == body[k..k + |key|];
    }
  }

  /** A value in the body ends where it did once `&`-separated text is
      appended. */
  lemma {:induction false} ValueExtends(body: seq<char>, tail: seq<char>, p: nat)
    requires p <= |body|
    ensures ValueAt(body + ['&'] + tail, p) == ValueAt(body, p)
    decreases |body| - p
  {
    var b := body + ['&'] + tail;
    if p < |body| && body[p] != '&' {
      ValueExtends(body, tail, p + 1);
      assert b[p..ValueEnd(b, p)] == [b[p]] + b[p + 1..ValueEnd(b, p + 1)];
      assert body[p..ValueEnd(body, p)] == [body[p]] + body[p + 1..ValueEnd(body, p + 1)];
    }
  }

  /** A key found in the body keeps its value when `&`-separated text is
      appended. */
  lemma {:induction false} KeyValueExtends(body: seq<char>, key: seq<char>, tail: seq<char>)
    requires KeyValue(body, key).Some?
    ensures KeyValue(body + ['&'] + tail, key) == KeyValue(body, key)
  {
    assert body + ['&'] + tail == body + (['&'] + tail);
    FindExtends(body, key, ['&'] + tail, Find(body, key).value);
    ValueExtends(body, tail, ValueStart(body, key).value);
  }

  lemma {:induction false} OccursBetween(a: seq<char>, pat: seq<char>, b: seq<char>)
    ensures OccursAt(a + (pat + b), pat, |a|)
  {
    assert (a + (pat + b))[|a|..|a| + |pat|] == pat;
  }

  /** Appending `&softap_enabled=...` to a complete body leaves the five
      values as they were and ticks the check box. */
  lemma {:induction false} ExtractWithCheckBox(body: seq<char>, v: seq<char>)
    requires Extract(body).Some?
    ensures Extract(body + ['&'] + (SOFTAP_KEY + v)) == Some(Extract(body).value.(softap := true))
  {
    var tail := SOFTAP_KEY + v;
    var r := body + ['&'] + tail;
    OccursBetween(body + ['&'], SOFTAP_KEY, v);
    FoundIffOccurs(r, SOFTAP_KEY);
    var f := Extract(body).value;
    assert KeyValue(body, SSID_KEY) == Some(f.ssid) && KeyValue(body, PASS_KEY) == Some(f.pass);
    assert KeyValue(body, SERVER_IP_KEY) == Some(f.serverIp);
    assert KeyValue(body, PORT_KEY) == Some(f.port) && KeyValue(body, BAUD_KEY) == Some(f.baud);
    KeyValueExtends(body, SSID_KEY, tail);
    KeyValueExtends(body, PASS_KEY, tail);
    KeyValueExtends(body, SERVER_IP_KEY, tail);
    KeyValueExtends(body, PORT_KEY, tail);
    KeyValueExtends(body, BAUD_KEY, tail);
  }

  /** `softap_enabled` is a check box: its presence turns the soft AP on,
      whatever value follows it, and changes nothing else. */
  lemma {:induction false} SoftapOnByPresence(cur: Settings, body: seq<char>, v: seq<char>)
    requires NUL !in body && NUL !in v
    requires Extract(body).Some?
    ensures SaveSpec(cur, Some(body + ['&'] + SOFTAP_KEY + v)) == (Stored(Extract(body).value.(softap := true)), true)
  {
    var tail := SOFTAP_KEY + v;
    var r := body + ['&'] + tail;
    assert NUL !in SOFTAP_KEY;
    assert NUL !in ['&'] + tail;
    assert r == body + (['&'] + tail) == body + ['&'] + SOFTAP_KEY + v;
    UpToNulOfPlain(r);
    ExtractWithCheckBox(body, v);
  }

  // ----- the request buffer ------------------------------------------------

  /** The request buffer holds the body, except that some `&` may have been
      cut to NUL, and a NUL after it. */
  ghost predicate Agrees(b: seq<char>, body: seq<char>)
  {
    NUL !in body && |body| < |b| && b[|body|] == NUL &&
    forall k :: 0 <= k < |body| ==> b[k] == body[k] || (body[k] == '&' && b[k] == NUL)
  }

  /** Once the `&` that ends a value has been cut, the C string at the value's
      start is the value, whatever other cuts were made. */
  lemma {:induction false} CutValueReads(b: seq<char>, body: seq<char>, p: nat)
    requires Agrees(b, body) && p <= |body| && b[ValueEnd(body, p)] == NUL
    ensures UpToNul(b[p..]) == ValueAt(body, p)
  {
    var e := ValueEnd(body, p);
    var v := ValueAt(body, p);
    assert b[p..][..|v|] == v by {
      forall k | 0 <= k < |v|
        ensures b[p + k] == v[k]
      {
        assert body[p + k] != '&';
      }
    }
    CStringOfPrefix(b[p..], v);
    assert NUL !in v by {
      assert forall c :: c in v ==> c in body;
    }
    UpToNulOfPlain(v);
  }

  /** `end = strchr(value, '&'); if (end) *end = '\0';` for the value that
      starts at `p`. */
  method CutValue(buf: array<char>, p: nat, ghost body: seq<char>)
    requires Agrees(buf[..], body) && p <= |body|
    modifies buf
    ensures buf[..] == old(buf[..])[ValueEnd(body, p) := NUL]
    ensures Agrees(buf[..], body)
  {
    var e := p;
    while buf[e] != NUL && buf[e] != '&'
      invariant p <= e <= ValueEnd(body, p)
      invariant forall k :: p <= k < e ==> buf[k] == body[k]
      decreases ValueEnd(body, p) - e
    {
      assert buf[e] == body[e] && e < ValueEnd(body, p);
      e := e + 1;
    }
    assert e == ValueEnd(body, p);
    if buf[e] == '&' {
      buf[e] := NUL;
    }
  }

  /** The parsing half of `config_save_handler` (main/web_server.c:193-229):
      the received text is copied into a buffer, the keys are located, and
      each value is cut at its `&`. */
  method ParseRequest(received: seq<char>) returns (r: Option<Fields>)
    ensures r == Extract(UpToNul(received))
  {
    var buf := LoadBuffer(received);
    var body := UpToNul(received);
    var s, pw, ip := ValueStart(body, SSID_KEY), ValueStart(body, PASS_KEY), ValueStart(body, SERVER_IP_KEY);
    var port, baud := ValueStart(body, PORT_KEY), ValueStart(body, BAUD_KEY);
    var softap := Find(body, SOFTAP_KEY);
    ExtractByStarts(body);
    if s.Some? && pw.Some? && ip.Some? && port.Some? && baud.Some? {
      CutAll(buf, body, s.value, pw.value, ip.value, port.value, baud.value);
      r := Some(ReadValues(buf[..], body, s.value, pw.value, ip.value, port.value, baud.value, softap.Some?));
    } else {
      r := None;
    }
  }

  /** `Extract` in terms of where the five values start. */
  lemma {:induction false} ExtractByStarts(body: seq<char>)
    ensures var s, pw, ip := ValueStart(body, SSID_KEY), ValueStart(body, PASS_KEY), ValueStart(body, SERVER_IP_KEY);
      var port, baud := ValueStart(body, PORT_KEY), ValueStart(body, BAUD_KEY);
      Extract(body) ==
        if s.Some? && pw.Some? && ip.Some? && port.Some? && baud.Some? then
          Some(Fields(ValueAt(body, s.value), ValueAt(body, pw.value), ValueAt(body, ip.value),
                      ValueAt(body, port.value), ValueAt(body, baud.value), Find(body, SOFTAP_KEY).Some?))
        else None
  {
  }

  /** `buf[ret] = '\0'` after the received text: the buffer holds the body
      and a NUL after it. */
  method LoadBuffer(received: seq<char>) returns (buf: array<char>)
    ensures fresh(buf) && Agrees(buf[..], UpToNul(received))
  {
    buf := new char[|received| + 1](k => At(received, k));
    var body := UpToNul(received);
    assert buf[..|received|] == received;
    forall k | 0 <= k < |body|
      ensures buf[k] == body[k]
    {
      assert body[k] == received[k];
    }
  }

  /** The five `strchr`-and-cut steps, one per required key. */
  method CutAll(buf: array<char>, ghost body: seq<char>, s: nat, pw: nat, ip: nat, port: nat, baud: nat)
    requires Agrees(buf[..], body) && s <= |body| && pw <= |body| && ip <= |body| && port <= |body| && baud <= |body|
    modifies buf
    ensures Agrees(buf[..], body)
    ensures buf[ValueEnd(body, s)] == NUL && buf[ValueEnd(body, pw)] == NUL && buf[ValueEnd(body, ip)] == NUL
    ensures buf[ValueEnd(body, port)] == NUL && buf[ValueEnd(body, baud)] == NUL
  {
    CutValue(buf, s, body);
    CutValue(buf, pw, body);
    assert buf[ValueEnd(body, s)] == NUL;
    CutValue(buf, ip, body);
    assert buf[ValueEnd(body, s)] == NUL && buf[ValueEnd(body, pw)] == NUL;
    CutValue(buf, port, body);
    assert buf[ValueEnd(body, s)] == NUL && buf[ValueEnd(body, pw)] == NUL && buf[ValueEnd(body, ip)] == NUL;
    CutValue(buf, baud, body);
  }

  /** The five values read as the C strings at their starts, once every
      value's `&` has been cut. */
  function ReadValues(b: seq<char>, body: seq<char>, s: nat, pw: nat, ip: nat, port: nat, baud: nat, softap: bool): (r: Fields)
    requires Agrees(b, body) && s <= |body| && pw <= |body| && ip <= |body| && port <= |body| && baud <= |body|
    requires b[ValueEnd(body, s)] == NUL && b[ValueEnd(body, pw)] == NUL && b[ValueEnd(body, ip)] == NUL
    requires b[ValueEnd(body, port)] == NUL && b[ValueEnd(body, baud)] == NUL
    ensures r == Fields(ValueAt(body, s), ValueAt(body, pw), ValueAt(body, ip), ValueAt(body, port), ValueAt(body, baud), softap)
  {
    CutValueReads(b, body, s);
    CutValueReads(b, body, pw);
    CutValueReads(b, body, ip);
    CutValueReads(b, body, port);
    CutValueReads(b, body, baud);
    Fields(UpToNul(b[s..]), UpToNul(b[pw..]), UpToNul(b[ip..]), UpToNul(b[port..]), UpToNul(b[baud..]), softap)
  }

  // ----- the global configuration -------------------------------------------

  /** The global `config_t` that `config_get` hands out. */
  class ConfigStore {
    const ssid: array<char>
    const pass: array<char>
    const serverIp: array<char>
    var port: u16
    var baud: u32
    var softap: bool

    /** Each text field keeps a NUL in its last byte: `strncpy` with
        `sizeof - 1` never writes it. */
    ghost predicate Valid()
      reads this, ssid, pass, serverIp
    {
      ssid.Length == SSID_SIZE && pass.Length == PASS_SIZE && serverIp.Length == SERVER_IP_SIZE &&
      ssid != pass && ssid != serverIp && pass != serverIp &&
      ssid[SSID_SIZE - 1] == NUL && pass[PASS_SIZE - 1] == NUL && serverIp[SERVER_IP_SIZE - 1] == NUL
    }

    function View(): Settings
      reads this, ssid, pass, serverIp
    {
      Settings(UpToNul(ssid[..]), UpToNul(pass[..]), UpToNul(serverIp[..]), port, baud, softap)
    }

    /** The zero-initialised static `config_t`. */
    constructor ()
      ensures Valid() && View() == Settings([], [], [], 0, 0, false)
    {
      ssid := new char[SSID_SIZE](_ => NUL);
      pass := new char[PASS_SIZE](_ => NUL);
      serverIp := new char[SERVER_IP_SIZE](_ => NUL);
      port, baud, softap := 0, 0, false;
    }

    /** `strncpy(field, v, sizeof(field) - 1)` into a field whose last byte
        is a NUL. */
    static method CopyInto(dst: array<char>, v: seq<char>)
      requires dst.Length >= 1 && dst[dst.Length - 1] == NUL
      modifies dst
      ensures dst[dst.Length - 1] == NUL && UpToNul(dst[..]) == Bounded(v, dst.Length - 1)
    {
      StrNCopy(dst, v, dst.Length - 1);
      assert dst[dst.Length - 1] == dst[dst.Length - 1..][0];
      StrNCopyView(dst[..], v, dst.Length - 1);
    }

    /** The stores of `config_save_handler` (main/web_server.c:232-237). */
    method Store(f: Fields)
      requires Valid()
      modifies this, ssid, pass, serverIp
      ensures Valid() && View() == Stored(f)
    {
      CopyInto(ssid, f.ssid);
      CopyInto(pass, f.pass);
      CopyInto(serverIp, f.serverIp);
      port := ToU16(Atoi(f.port));
      baud := ToU32(Atoi(f.baud));
      softap := f.softap;
    }

    /** `config_save_handler` up to `config_save`: `received` is what
        `httpd_req_recv` delivered (`None` for an error); the result says
        whether the settings were saved (otherwise the answer is a 500). */
    method Save(received: Option<seq<char>>) returns (saved: bool)
      requires Valid()
      modifies this, ssid, pass, serverIp
      ensures Valid() && (View(), saved) == SaveSpec(old(View()), received)
    {
      if received.None? || |received.value| == 0 {
        return false;
      }
      var f := ParseRequest(received.value);
      if f.None? {
        return false;
      }
      Store(f.value);
      saved := true;
    }
  }
}
