/** How the three mechanisms frame their messages, and that what was framed can be
    read back. */
module Framing {
  import opened Options
  import opened Text

  type Extensions = seq<(string, string)>

  // ------------------------------------------------------------------ the username

  /** `,` and `=` separate fields, so the username has them replaced. */
  function Escaped(username: string): string {
    Replaced(Replaced(username, '=', "=3D"), ',', "=2C")
  }

  /** Section 5.1 of RFC 5802, read backwards: any other use of `=` is an error. */
  function Unescaped(s: string): Option<string> {
    if s == [] then Some([])
    else if s[0] != '=' then Consed(s[0], Unescaped(s[1..]))
    else if |s| >= 3 && s[1..3] == "2C" then Consed(',', Unescaped(s[3..]))
    else if |s| >= 3 && s[1..3] == "3D" then Consed('=', Unescaped(s[3..]))
    else None
  }

  function Consed(c: char, rest: Option<string>): Option<string> {
    if rest.Some? then Some([c] + rest.value) else None
  }

  function EscapedChar(c: char): string {
    if c == '=' then "=3D" else if c == ',' then "=2C" else [c]
  }

  lemma EscapedHead(c: char, rest: string)
    ensures Escaped([c] + rest) == (if c == '=' then "=3D" else if c == ',' then "=2C" else [c]) + Escaped(rest)
  {
    var once := if c == '=' then "=3D" else [c];
    assert Replaced([c] + rest, '=', "=3D") == once + Replaced(rest, '=', "=3D");
    ReplacedAppend(once, Replaced(rest, '=', "=3D"), ',', "=2C");
    ReplacedOnce(c);
  }

  lemma ReplacedOnce(c: char)
    ensures Replaced(if c == '=' then "=3D" else [c], ',', "=2C") == EscapedChar(c)
  {
    if c == '=' {
      assert "=3D"[1..] == "3D" && "3D"[1..] == "D" && "D"[1..] == "";
      assert Replaced("D", ',', "=2C") == "D";
      assert Replaced("3D", ',', "=2C") == "3D";
    } else {
      assert [c][1..] == "";
    }
  }

  /** The server reads back the username; and escaping leaves no separator. */
  lemma {:induction false} UnescapeEscaped(username: string)
    ensures Unescaped(Escaped(username)) == Some(username)
    ensures Free(Escaped(username), ',')
  {
    if username != [] {
      var c, rest := username[0], username[1..];
      assert username == [c] + rest;
      EscapedHead(c, rest);
      UnescapeEscaped(rest);
      var s := EscapedChar(c) + Escaped(rest);
      assert s[|EscapedChar(c)|..] == Escaped(rest);
    }
  }

  // ------------------------------------------------------------------ extensions

  predicate IsAsciiLetter(c: char) {
    'a' <= c <= 'z' || 'A' <= c <= 'Z'
  }

  function Lowered(c: char): char {
    if 'A' <= c <= 'Z' then (c as int + 32) as char else c
  }

  function LoweredText(s: string): (r: string)
    ensures |r| == |s|
  {
    seq(|s|, i requires 0 <= i < |s| => Lowered(s[i]))
  }

  predicate IsControl(c: char) {
    c < ' ' || '\U{7f}' <= c <= '\U{9f}'
  }

  predicate KeyShaped(key: string) {
    key != [] && forall c <- key :: IsAsciiLetter(c)
  }

  const RESERVED: seq<string> := ["a", "c", "e", "i", "m", "n", "p", "r", "s", "v"]

  /** SCRAM's `validate_extension`. */
  predicate ScramExtension(e: (string, string)) {
    && KeyShaped(e.0) && LoweredText(e.0) !in RESERVED
    && e.1 != [] && forall c <- e.1 :: c != ',' && !IsControl(c)
  }

  /** OAUTHBEARER's `validate_extension`. */
  predicate OauthExtension(e: (string, string)) {
    && KeyShaped(e.0) && LoweredText(e.0) != "auth"
    && e.1 != [] && forall c <- e.1 :: '!' <= c <= '~' || c == ' ' || c == '\t'
  }

  // ---------------------------------------------------- what is accepted, spelled out

  predicate Letters(key: string) {
    key != [] && forall i | 0 <= i < |key| :: ('a' <= key[i] <= 'z') || ('A' <= key[i] <= 'Z')
  }

  /** One of the letters the mechanism keeps to itself, in either case. */
  predicate KeptLetter(c: char) {
    || c == 'a' || c == 'c' || c == 'e' || c == 'i' || c == 'm' || c == 'n' || c == 'p' || c == 'r' || c == 's' || c == 'v'
    || c == 'A' || c == 'C' || c == 'E' || c == 'I' || c == 'M' || c == 'N' || c == 'P' || c == 'R' || c == 'S' || c == 'V'
  }

  lemma KeyLetters(key: string)
    ensures KeyShaped(key) <==> Letters(key)
  {
    if KeyShaped(key) {
      forall i | 0 <= i < |key| ensures IsAsciiLetter(key[i]) {
        assert key[i] in key;
      }
    }
  }

  lemma LoweredLetter(c: char)
    requires IsAsciiLetter(c)
    ensures KeptLetter(c) <==> Lowered(c) in "aceimnprsv"
  {
    var kept := "aceimnprsv";
    assert kept[0] == 'a' && kept[1] == 'c' && kept[2] == 'e' && kept[3] == 'i' && kept[4] == 'm';
    assert kept[5] == 'n' && kept[6] == 'p' && kept[7] == 'r' && kept[8] == 's' && kept[9] == 'v';
  }

  lemma ReservedKeys(s: string)
    ensures s in RESERVED <==> |s| == 1 && s[0] in "aceimnprsv"
  {
    var kept := "aceimnprsv";
    forall i | 0 <= i < 10 ensures RESERVED[i] == [kept[i]] {
    }
    if s in RESERVED {
      var i :| 0 <= i < 10 && RESERVED[i] == s;
      assert s[0] == kept[i];
    }
    if |s| == 1 && s[0] in kept {
      var i :| 0 <= i < 10 && kept[i] == s[0];
      assert s == [kept[i]] && RESERVED[i] == s;
    }
  }

  /** SCRAM accepts an extension exactly when its key is ASCII letters and not one of the
      reserved single letters in either case, and its value is not empty and has no comma
      and no control character. */
  lemma ScramExtensionExact(key: string, value: string)
    ensures ScramExtension((key, value)) <==>
            && Letters(key) && !(|key| == 1 && KeptLetter(key[0]))
            && value != [] && forall i | 0 <= i < |value| ::
                 value[i] != ',' && value[i] as int >= 0x20 && !(0x7f <= value[i] as int <= 0x9f)
  {
    KeyLetters(key);
    ReservedKeys(LoweredText(key));
    if |key| == 1 && Letters(key) {
      LoweredLetter(key[0]);
    }
    forall i | 0 <= i < |value| ensures value[i] in value {
    }
  }

  lemma IsAuth(s: string)
    ensures s == "auth" <==> |s| == 4 && s[0] == 'a' && s[1] == 'u' && s[2] == 't' && s[3] == 'h'
  {
    if |s| == 4 && s[0] == 'a' && s[1] == 'u' && s[2] == 't' && s[3] == 'h' {
      forall i | 0 <= i < 4 ensures s[i] == "auth"[i] {
      }
    }
  }

  /** OAUTHBEARER accepts an extension exactly when its key is ASCII letters and not
      `auth` in any case, and its value is not empty and of printable ASCII, blanks and
      tabs. */
  lemma OauthExtensionExact(key: string, value: string)
    ensures OauthExtension((key, value)) <==>
            && Letters(key)
            && !(|key| == 4 && key[0] in "aA" && key[1] in "uU" && key[2] in "tT" && key[3] in "hH")
            && value != [] && forall i | 0 <= i < |value| ::
                 0x20 <= value[i] as int <= 0x7e || value[i] as int == 9
  {
    KeyLetters(key);
    IsAuth(LoweredText(key));
    if |key| == 4 {
      assert "aA"[0] == 'a' && "aA"[1] == 'A' && "uU"[0] == 'u' && "uU"[1] == 'U';
      assert "tT"[0] == 't' && "tT"[1] == 'T' && "hH"[0] == 'h' && "hH"[1] == 'H';
    }
    forall i | 0 <= i < |value| ensures value[i] in value {
    }
  }

  function ExtensionFields(es: Extensions): (r: seq<string>)
    ensures |r| == |es|
  {
    seq(|es|, i requires 0 <= i < |es| => es[i].0 + "=" + es[i].1)
  }

  /** `key=value`, cut at the first `=`. */
  function Pair(field: string): Option<(string, string)> {
    if field == [] then None
    else if field[0] == '=' then Some(("", field[1..]))
    else
      match Pair(field[1..])
      case None => None
      case Some(p) => Some(([field[0]] + p.0, p.1))
  }

  function Pairs(fields: seq<string>): Option<Extensions> {
    if fields == [] then Some([])
    else
      var first, rest := Pair(fields[0]), Pairs(fields[1..]);
      if first.Some? && rest.Some? then Some([first.value] + rest.value) else None
  }

  lemma {:induction false} PairBack(key: string, value: string)
    requires Free(key, '=')
    ensures Pair(key + "=" + value) == Some((key, value))
  {
    var field := key + "=" + value;
    if key == [] {
      assert field[1..] == value;
    } else {
      PairBack(key[1..], value);
      assert field[1..] == key[1..] + "=" + value;
      assert key == [key[0]] + key[1..];
    }
  }

  lemma {:induction false} PairsBack(es: Extensions)
    requires forall e <- es :: KeyShaped(e.0)
    ensures Pairs(ExtensionFields(es)) == Some(es)
  {
    if es != [] {
      assert es[0] in es;
      PairBack(es[0].0, es[0].1);
      PairsBack(es[1..]);
      assert ExtensionFields(es)[1..] == ExtensionFields(es[1..]);
      assert es == [es[0]] + es[1..];
    }
  }

  lemma {:induction false} JoinOneMore(fields: seq<string>, more: string, sep: char)
    requires fields != []
    ensures Join(fields + [more], sep) == Join(fields, sep) + [sep] + more
  {
    var all := fields + [more];
    assert all[1..] == fields[1..] + [more];
    if |fields| == 1 {
      assert all[1..] == [more];
    } else {
      JoinOneMore(fields[1..], more, sep);
    }
  }

  // ---------------------------------------------------------------- SCRAM client-first

  function BareFields(username: string, nonce: string, es: Extensions): seq<string> {
    ["n=" + Escaped(username), "r=" + nonce] + ExtensionFields(es)
  }

  predicate BareAccepted(nonce: string, es: Extensions) {
    Free(nonce, ',') && forall e <- es :: ScramExtension(e)
  }

  /** The bare message `ScramClient::new` builds. */
  method ClientFirstBare(username: string, nonce: string, es: Extensions) returns (bare: Option<string>)
    ensures bare.Some? <==> BareAccepted(nonce, es)
    ensures bare.Some? ==> bare.value == Join(BareFields(username, nonce, es), ',')
  {
    if ',' in nonce {
      return None;
    }
    var text := "n=" + Escaped(username) + ",r=" + nonce;
    assert BareFields(username, nonce, es[..0]) == ["n=" + Escaped(username)] + ["r=" + nonce];
    JoinOneMore(["n=" + Escaped(username)], "r=" + nonce, ',');
    assert text == "n=" + Escaped(username) + [','] + ("r=" + nonce);
    for i := 0 to |es|
      invariant forall k | 0 <= k < i :: ScramExtension(es[k])
      invariant text == Join(BareFields(username, nonce, es[..i]), ',')
    {
      if !ScramExtension(es[i]) {
        return None;
      }
      var field := es[i].0 + "=" + es[i].1;
      JoinOneMore(BareFields(username, nonce, es[..i]), field, ',');
      assert BareFields(username, nonce, es[..i + 1]) == BareFields(username, nonce, es[..i]) + [field];
      text := text + "," + es[i].0 + "=" + es[i].1;
      assert text == Join(BareFields(username, nonce, es[..i]), ',') + [','] + field;
    }
    assert es[..|es|] == es;
    bare := Some(text);
  }

  /** What a server reads: username, nonce and extensions. */
  function ParseBare(bare: string): Option<(string, string, Extensions)> {
    var fields := Split(bare, ',');
    if |fields| < 2 || After(fields[0], "n=").None? || After(fields[1], "r=").None? then None
    else
      var username, es := Unescaped(After(fields[0], "n=").value), Pairs(fields[2..]);
      if username.Some? && es.Some? then Some((username.value, After(fields[1], "r=").value, es.value)) else None
  }

  lemma ScramFieldsFree(es: Extensions)
    requires forall e <- es :: ScramExtension(e)
    ensures forall f <- ExtensionFields(es) :: Free(f, ',')
    ensures forall e <- es :: KeyShaped(e.0)
  {
    forall i | 0 <= i < |es| ensures Free(ExtensionFields(es)[i], ',') {
      assert es[i] in es;
    }
  }

  /** Splitting and unescaping recovers what was framed. */
  lemma BareRoundTrip(username: string, nonce: string, es: Extensions)
    requires BareAccepted(nonce, es)
    ensures ParseBare(Join(BareFields(username, nonce, es), ',')) == Some((username, nonce, es))
  {
    var fields := BareFields(username, nonce, es);
    UnescapeEscaped(username);
    ScramFieldsFree(es);
    forall f <- fields ensures Free(f, ',') {
    }
    SplitJoin(fields, ',');
    assert fields[2..] == ExtensionFields(es);
    assert ("n=" + Escaped(username))[2..] == Escaped(username) && ("r=" + nonce)[2..] == nonce;
    PairsBack(es);
  }

  /** The message of a login without extensions, as it goes over the wire. */
  lemma BareText(username: string, nonce: string)
    ensures Join(BareFields(username, nonce, []), ',') == "n=" + Escaped(username) + ",r=" + nonce
  {
    var fields := BareFields(username, nonce, []);
    assert fields == ["n=" + Escaped(username), "r=" + nonce] && fields[1..] == ["r=" + nonce];
    assert "n=" + Escaped(username) + [','] + ("r=" + nonce) == "n=" + Escaped(username) + ",r=" + nonce;
  }

  /** No two logins are framed alike. */
  lemma BareInjective(u: string, n: string, es: Extensions, v: string, m: string, fs: Extensions)
    requires BareAccepted(n, es) && BareAccepted(m, fs)
    requires Join(BareFields(u, n, es), ',') == Join(BareFields(v, m, fs), ',')
    ensures u == v && n == m && es == fs
  {
    BareRoundTrip(u, n, es);
    BareRoundTrip(v, m, fs);
  }

  // ---------------------------------------------------------- OAUTHBEARER, RFC 7628

  const KVSEP: char := '\U{01}'

  predicate TokenChar(c: char) {
    IsAsciiLetter(c) || IsDigit(c) || c in "-._~+/="
  }

  predicate TokenAccepted(token: string) {
    token != [] && forall c <- token :: TokenChar(c)
  }

  /** A token is accepted exactly when it is not empty and of ASCII letters, digits and
      the seven signs of RFC 6750. */
  lemma TokenExact(token: string)
    ensures TokenAccepted(token) <==>
            token != [] && forall i | 0 <= i < |token| ::
              || ('a' <= token[i] <= 'z') || ('A' <= token[i] <= 'Z') || ('0' <= token[i] <= '9')
              || token[i] == '-' || token[i] == '.' || token[i] == '_' || token[i] == '~' || token[i] == '+' || token[i] == '/' || token[i] == '='
  {
    var signs := "-._~+/=";
    assert signs[0] == '-' && signs[1] == '.' && signs[2] == '_' && signs[3] == '~' && signs[4] == '+' && signs[5] == '/' && signs[6] == '=';
    forall i | 0 <= i < |token| ensures token[i] in token {
    }
  }

  function OauthFields(token: string, es: Extensions): seq<string> {
    ["n,,", "auth=Bearer " + token] + ExtensionFields(es) + ["", ""]
  }

  /** `initial_client_response`. */
  method InitialClientResponse(token: string, es: Extensions) returns (out: Option<string>)
    ensures out.Some? <==> TokenAccepted(token) && forall e <- es :: OauthExtension(e)
    ensures out.Some? ==> out.value == Join(OauthFields(token, es), KVSEP)
  {
    if !TokenAccepted(token) {
      return None;
    }
    var text := "n,," + [KVSEP] + "auth=Bearer " + token + [KVSEP];
    ghost var head := ["n,,", "auth=Bearer " + token];
    JoinOneMore(["n,,"], "auth=Bearer " + token, KVSEP);
    assert ["n,,"] + ["auth=Bearer " + token] == head;
    assert text == Join(head, KVSEP) + [KVSEP];
    assert head + ExtensionFields(es[..0]) == head;
    for i := 0 to |es|
      invariant forall k | 0 <= k < i :: OauthExtension(es[k])
      invariant text == Join(head + ExtensionFields(es[..i]), KVSEP) + [KVSEP]
    {
      if !OauthExtension(es[i]) {
        return None;
      }
      var field := es[i].0 + "=" + es[i].1;
      JoinOneMore(head + ExtensionFields(es[..i]), field, KVSEP);
      assert head + ExtensionFields(es[..i + 1]) == head + ExtensionFields(es[..i]) + [field];
      text := text + es[i].0 + "=" + es[i].1 + [KVSEP];
      assert text == Join(head + ExtensionFields(es[..i]), KVSEP) + [KVSEP] + field + [KVSEP];
    }
    assert es[..|es|] == es;
    var whole := head + ExtensionFields(es);
    JoinOneMore(whole, "", KVSEP);
    JoinOneMore(whole + [""], "", KVSEP);
    assert whole + [""] + [""] == OauthFields(token, es);
    text := text + [KVSEP];
    out := Some(text);
  }

  function ParseOauth(response: string): Option<(string, Extensions)> {
    var fields := Split(response, KVSEP);
    if |fields| < 4 || fields[0] != "n,," || After(fields[1], "auth=Bearer ").None? || fields[|fields| - 2..] != ["", ""] then None
    else
      var es := Pairs(fields[2..|fields| - 2]);
      if es.Some? then Some((After(fields[1], "auth=Bearer ").value, es.value)) else None
  }

  lemma OauthFieldsFree(es: Extensions)
    requires forall e <- es :: OauthExtension(e)
    ensures forall f <- ExtensionFields(es) :: Free(f, KVSEP)
    ensures forall e <- es :: KeyShaped(e.0)
  {
    forall i | 0 <= i < |es| ensures Free(ExtensionFields(es)[i], KVSEP) {
      assert es[i] in es;
    }
  }

  /** Splitting on 0x01 recovers token and extensions. */
  lemma OauthRoundTrip(token: string, es: Extensions)
    requires TokenAccepted(token) && forall e <- es :: OauthExtension(e)
    ensures ParseOauth(Join(OauthFields(token, es), KVSEP)) == Some((token, es))
  {
    var fields := OauthFields(token, es);
    OauthFieldsFree(es);
    assert Free("auth=Bearer " + token, KVSEP) && Free("n,,", KVSEP);
    forall f <- fields ensures Free(f, KVSEP) {
    }
    SplitJoin(fields, KVSEP);
    assert fields[2..|fields| - 2] == ExtensionFields(es);
    assert ("auth=Bearer " + token)[|"auth=Bearer "|..] == token;
    PairsBack(es);
  }

  lemma OauthInjective(t: string, es: Extensions, u: string, fs: Extensions)
    requires TokenAccepted(t) && TokenAccepted(u)
    requires (forall e <- es :: OauthExtension(e)) && (forall e <- fs :: OauthExtension(e))
    requires Join(OauthFields(t, es), KVSEP) == Join(OauthFields(u, fs), KVSEP)
    ensures t == u && es == fs
  {
    OauthRoundTrip(t, es);
    OauthRoundTrip(u, fs);
  }

  // ------------------------------------------------------------------ PLAIN, RFC 4616

  const NUL: char := '\U{00}'

  /** The token `authenticate` builds; a NUL in a field is refused. */
  method PlainToken(username: string, password: string) returns (token: Option<string>)
    ensures token.Some? <==> Free(username, NUL) && Free(password, NUL)
    ensures token.Some? ==> Split(token.value, NUL) == ["", username, password]
  {
    if NUL in username || NUL in password {
      return None;
    }
    token := Some([NUL] + username + [NUL] + password);
    PlainSplits(username, password);
  }

  lemma PlainSplits(username: string, password: string)
    requires Free(username, NUL) && Free(password, NUL)
    ensures Split([NUL] + username + [NUL] + password, NUL) == ["", username, password]
  {
    SplitWhole(password, NUL);
    SplitFirst(username, password, NUL);
    SplitFirst("", username + [NUL] + password, NUL);
    assert [NUL] + username + [NUL] + password == "" + [NUL] + (username + [NUL] + password);
  }

  /** Were a NUL let through, the server would read other fields: the refusal is
      exactly what the round trip needs. */
  lemma PlainNeedsRefusal(username: string, password: string)
    ensures Split([NUL] + username + [NUL] + password, NUL) == ["", username, password] <==> Free(username, NUL) && Free(password, NUL)
  {
    var token := [NUL] + username + [NUL] + password;
    if Free(username, NUL) && Free(password, NUL) {
      PlainSplits(username, password);
    }
    JoinSplit(token, NUL);
    if Split(token, NUL) == ["", username, password] {
      assert username in Split(token, NUL) && password in Split(token, NUL);
    }
  }
}
