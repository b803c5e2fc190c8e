/** The SCRAM exchange, with the hashes left abstract. */
module Scram {
  import opened Options
  import opened Text
  import opened Framing

  type Bytes = seq<bv8>

  /** HMAC, H, Hi and base64 of one mechanism. */
  datatype Crypto = Crypto(
    size: nat,
    hi: (string, Bytes, nat) -> Bytes,
    hmac: (Bytes, string) -> Bytes,
    digest: Bytes -> Bytes,
    encode: Bytes -> string,
    decode: string -> Option<Bytes>
  )

  /** All that is needed of them: base64 decodes what it encoded and has no comma,
      and an HMAC has one length. */
  ghost predicate Lawful(c: Crypto) {
    && (forall b :: c.decode(c.encode(b)) == Some(b) && Free(c.encode(b), ','))
    && (forall k, d :: |c.hmac(k, d)| == c.size)
  }

  const MIN_ITERATIONS: nat := 4096
  const MAX_ITERATIONS: nat := 1_000_000

  /** The gs2 header `n,,` as bytes. */
  const HEADER: Bytes := [0x6e, 0x2c, 0x2c]

  function Xor(a: Bytes, b: Bytes): (r: Bytes)
    ensures |r| == if |a| <= |b| then |a| else |b|
    ensures forall i | 0 <= i < |r| :: r[i] == a[i] ^ b[i]
  {
    seq(if |a| <= |b| then |a| else |b|, i requires 0 <= i < |a| && i < |b| => a[i] ^ b[i])
  }

  /** The header's bytes are the text `n,,` that starts the client's first message. */
  lemma HeaderIsText()
    ensures |HEADER| == |"n,,"| && forall i | 0 <= i < |HEADER| :: HEADER[i] as int == "n,,"[i] as int
  {
    assert HEADER[0] as int == 'n' as int && HEADER[1] as int == ',' as int && HEADER[2] as int == ',' as int;
  }

  lemma XorTwice(a: Bytes, b: Bytes)
    requires |a| == |b|
    ensures forall i | 0 <= i < |a| :: a[i] == Xor(a, b)[i] ^ b[i]
  {
    forall i | 0 <= i < |a| ensures (a[i] ^ b[i]) ^ b[i] == a[i] {
    }
  }

  // --------------------------------------------------------------------- the messages

  /** The last field with this tag. */
  function LastTagged(fields: seq<string>, tag: string): Option<string> {
    if fields == [] then None
    else
      var value := After(fields[|fields| - 1], tag);
      if value.Some? then value else LastTagged(fields[..|fields| - 1], tag)
  }

  /** The i-th field is the last one with this tag. */
  ghost predicate LastField(fields: seq<string>, tag: string, i: nat) {
    i < |fields| && tag <= fields[i] && forall j | i < j < |fields| :: !(tag <= fields[j])
  }

  lemma {:induction false} LastTaggedExact(fields: seq<string>, tag: string)
    ensures LastTagged(fields, tag).None? ==> forall f <- fields :: !(tag <= f)
    ensures LastTagged(fields, tag).Some? ==>
              exists i: nat :: LastField(fields, tag, i) && fields[i][|tag|..] == LastTagged(fields, tag).value
  {
    if fields != [] {
      var last := |fields| - 1;
      LastTaggedExact(fields[..last], tag);
      assert fields == fields[..last] + [fields[last]];
      if tag <= fields[last] {
        assert LastField(fields, tag, last);
      } else if LastTagged(fields, tag).Some? {
        var i: nat :| LastField(fields[..last], tag, i) && fields[..last][i][|tag|..] == LastTagged(fields, tag).value;
        assert LastField(fields, tag, i);
      }
    }
  }

  lemma OneLastField(fields: seq<string>, tag: string, i: nat)
    requires LastField(fields, tag, i)
    ensures LastTagged(fields, tag) == Some(fields[i][|tag|..])
  {
    LastTaggedExact(fields, tag);
    assert fields[i] in fields;
    if LastTagged(fields, tag).Some? {
      var j: nat :| LastField(fields, tag, j) && fields[j][|tag|..] == LastTagged(fields, tag).value;
      assert i == j;
    }
  }

  predicate Rejects(fields: seq<string>) {
    exists f <- fields :: After(f, "e=").Some?
  }

  lemma OneTag(field: string)
    ensures "r=" <= field ==> field[0] == 'r'
    ensures "s=" <= field ==> field[0] == 's'
    ensures "i=" <= field ==> field[0] == 'i'
    ensures "e=" <= field ==> field[0] == 'e'
    ensures "v=" <= field ==> field[0] == 'v'
  {
    assert "r="[0] == 'r' && "s="[0] == 's' && "i="[0] == 'i' && "e="[0] == 'e' && "v="[0] == 'v';
  }

  function WithoutProof(c: Crypto, nonce: string): string {
    "c=" + c.encode(HEADER) + ",r=" + nonce
  }

  function AuthMessage(c: Crypto, bare: string, serverFirst: string, nonce: string): string {
    bare + "," + serverFirst + "," + WithoutProof(c, nonce)
  }

  function ClientKey(c: Crypto, salted: Bytes): Bytes {
    c.hmac(salted, "Client Key")
  }

  function ServerKey(c: Crypto, salted: Bytes): Bytes {
    c.hmac(salted, "Server Key")
  }

  predicate Extends(nonce: string, ours: string) {
    ours <= nonce && |nonce| > |ours|
  }

  /** What the server settled in its first message. */
  datatype Terms = Terms(nonce: string, salt: Bytes, iterations: nat)

  function Agreed(c: Crypto, ours: string, serverFirst: string): Option<Terms> {
    var fields := Split(serverFirst, ',');
    var nonce, salt, count := LastTagged(fields, "r="), LastTagged(fields, "s="), LastTagged(fields, "i=");
    if Rejects(fields) || nonce.None? || !Extends(nonce.value, ours) || salt.None? || count.None? then None
    else
      var bytes, iterations := c.decode(salt.value), ParseU32(count.value);
      if bytes.None? || iterations.None? || !(MIN_ITERATIONS <= iterations.value <= MAX_ITERATIONS) then None
      else Some(Terms(nonce.value, bytes.value, iterations.value))
  }

  /** The terms a server-first message settles, spelled out: no field rejects; the last
      nonce field carries a nonce that starts with ours and is longer; the last salt
      field decodes; and the last iteration field is a number from 4096 to 1000000. */
  ghost predicate Settles(c: Crypto, ours: string, serverFirst: string, t: Terms) {
    var fields := Split(serverFirst, ',');
    && (forall f <- fields :: !("e=" <= f))
    && (exists i: nat :: LastField(fields, "r=", i) && fields[i] == "r=" + t.nonce)
    && |t.nonce| > |ours| && t.nonce[..|ours|] == ours
    && (exists i: nat :: LastField(fields, "s=", i) && c.decode(fields[i][2..]) == Some(t.salt))
    && (exists i: nat :: LastField(fields, "i=", i) && ParseU32(fields[i][2..]) == Some(t.iterations))
    && 4096 <= t.iterations <= 1_000_000
  }

  lemma AgreedSettles(c: Crypto, ours: string, serverFirst: string, t: Terms)
    requires Agreed(c, ours, serverFirst) == Some(t)
    ensures Settles(c, ours, serverFirst, t)
  {
    hide Split;
    hide LastTagged;
    hide LastField;
    hide ParseU32;
    hide Rejects;
    var fields := Split(serverFirst, ',');
    var i := LastFieldOf(fields, "r=");
    var j := LastFieldOf(fields, "s=");
    var k := LastFieldOf(fields, "i=");
    NoRejection(fields);
  }

  lemma LastFieldOf(fields: seq<string>, tag: string) returns (i: nat)
    requires LastTagged(fields, tag).Some?
    ensures LastField(fields, tag, i) && i < |fields| && |fields[i]| >= |tag|
    ensures fields[i][|tag|..] == LastTagged(fields, tag).value && fields[i] == tag + LastTagged(fields, tag).value
  {
    LastTaggedExact(fields, tag);
    i :| LastField(fields, tag, i) && fields[i][|tag|..] == LastTagged(fields, tag).value;
  }

  lemma SettlesAgreed(c: Crypto, ours: string, serverFirst: string, t: Terms)
    requires Settles(c, ours, serverFirst, t)
    ensures Agreed(c, ours, serverFirst) == Some(t)
  {
    hide Split;
    hide LastTagged;
    hide ParseU32;
    hide Rejects;
    var fields := Split(serverFirst, ',');
    var i: nat :| LastField(fields, "r=", i) && fields[i] == "r=" + t.nonce;
    OneLastField(fields, "r=", i);
    assert fields[i][2..] == t.nonce;
    var j: nat :| LastField(fields, "s=", j) && c.decode(fields[j][2..]) == Some(t.salt);
    OneLastField(fields, "s=", j);
    var k: nat :| LastField(fields, "i=", k) && ParseU32(fields[k][2..]) == Some(t.iterations);
    OneLastField(fields, "i=", k);
    NoRejection(fields);
    assert ours <= t.nonce;
  }

  /** The client agrees to exactly the terms the message settles. */
  lemma AgreedExact(c: Crypto, ours: string, serverFirst: string, t: Terms)
    ensures Agreed(c, ours, serverFirst) == Some(t) <==> Settles(c, ours, serverFirst, t)
  {
    hide Agreed;
    hide Settles;
    if Agreed(c, ours, serverFirst) == Some(t) {
      AgreedSettles(c, ours, serverFirst, t);
    }
    if Settles(c, ours, serverFirst, t) {
      SettlesAgreed(c, ours, serverFirst, t);
    }
  }

  lemma SomeTerms(c: Crypto, ours: string, serverFirst: string)
    ensures Agreed(c, ours, serverFirst).Some? <==> exists t :: Settles(c, ours, serverFirst, t)
  {
    hide Agreed;
    hide Settles;
    if Agreed(c, ours, serverFirst).Some? {
      AgreedExact(c, ours, serverFirst, Agreed(c, ours, serverFirst).value);
    }
    if t :| Settles(c, ours, serverFirst, t) {
      AgreedExact(c, ours, serverFirst, t);
    }
  }

  lemma NoRejection(fields: seq<string>)
    ensures !Rejects(fields) <==> forall f <- fields :: !("e=" <= f)
  {
  }

  function ClientFinalMessage(c: Crypto, password: string, bare: string, serverFirst: string, t: Terms): string {
    var key := ClientKey(c, c.hi(password, t.salt, t.iterations));
    var proof := Xor(key, c.hmac(c.digest(key), AuthMessage(c, bare, serverFirst, t.nonce)));
    WithoutProof(c, t.nonce) + ",p=" + c.encode(proof)
  }

  function ServerSignature(c: Crypto, password: string, bare: string, serverFirst: string, t: Terms): Bytes {
    c.hmac(ServerKey(c, c.hi(password, t.salt, t.iterations)), AuthMessage(c, bare, serverFirst, t.nonce))
  }

  /** The first rejection or verifier decides. */
  function Verified(c: Crypto, expected: Bytes, fields: seq<string>): bool {
    if fields == [] then false
    else if After(fields[0], "e=").Some? then false
    else if After(fields[0], "v=").Some? then c.decode(After(fields[0], "v=").value) == Some(expected)
    else Verified(c, expected, fields[1..])
  }

  /** The loop over the fields of server-first. */
  method ReadFields(fields: seq<string>) returns (rejected: bool, nonce: Option<string>, salt: Option<string>, iterations: Option<string>)
    ensures rejected <==> Rejects(fields)
    ensures !rejected ==>
              && nonce == LastTagged(fields, "r=")
              && salt == LastTagged(fields, "s=")
              && iterations == LastTagged(fields, "i=")
  {
    rejected, nonce, salt, iterations := false, None, None, None;
    for i := 0 to |fields|
      invariant !rejected && !Rejects(fields[..i])
      invariant nonce == LastTagged(fields[..i], "r=")
      invariant salt == LastTagged(fields[..i], "s=")
      invariant iterations == LastTagged(fields[..i], "i=")
    {
      var field := fields[i];
      assert fields[..i + 1] == fields[..i] + [field];
      assert fields[..i + 1][..i] == fields[..i];
      OneTag(field);
      if "r=" <= field {
        nonce := Some(field[2..]);
      } else if "s=" <= field {
        salt := Some(field[2..]);
      } else if "i=" <= field {
        iterations := Some(field[2..]);
      } else if "e=" <= field {
        assert After(field, "e=").Some?;
        rejected := true;
        return;
      }
    }
    assert fields[..|fields|] == fields;
  }

  // -------------------------------------------------------------------------- the client

  class ScramClient {
    const crypto: Crypto
    const password: string
    const clientNonce: string
    const clientFirstBare: string
    var expectedServerSignature: Option<Bytes>

    constructor (crypto: Crypto, password: string, nonce: string, bare: string)
      ensures this.crypto == crypto && this.password == password && clientNonce == nonce && clientFirstBare == bare
      ensures expectedServerSignature == None
    {
      this.crypto, this.password, clientNonce, clientFirstBare := crypto, password, nonce, bare;
      expectedServerSignature := None;
    }

    /** `client_final`. */
    method ClientFinal(serverFirst: Option<string>) returns (message: Option<string>)
      modifies this
      ensures message.Some? <==> serverFirst.Some? && Agreed(crypto, clientNonce, serverFirst.value).Some?
      ensures message.Some? <==> serverFirst.Some? && exists t :: Settles(crypto, clientNonce, serverFirst.value, t)
      ensures message.None? ==> expectedServerSignature == old(expectedServerSignature)
      ensures message.Some? ==>
                var terms := Agreed(crypto, clientNonce, serverFirst.value).value;
                && message.value == ClientFinalMessage(crypto, password, clientFirstBare, serverFirst.value, terms)
                && expectedServerSignature == Some(ServerSignature(crypto, password, clientFirstBare, serverFirst.value, terms))
    {
      hide Settles;
      hide LastTagged;
      hide Split;
      hide ParseU32;
      if serverFirst.None? {
        return None;
      }
      SomeTerms(crypto, clientNonce, serverFirst.value);
      var rejected, nonce, salt, iterations := ReadFields(Split(serverFirst.value, ','));
      if rejected || nonce.None? || !(clientNonce <= nonce.value) || |nonce.value| <= |clientNonce| || salt.None? {
        return None;
      }
      var bytes := crypto.decode(salt.value);
      if bytes.None? || iterations.None? {
        return None;
      }
      var count := ParseU32(iterations.value);
      if count.None? || count.value < MIN_ITERATIONS || count.value > MAX_ITERATIONS {
        return None;
      }
      var withoutProof := WithoutProof(crypto, nonce.value);
      var authMessage := clientFirstBare + "," + serverFirst.value + "," + withoutProof;
      var salted := crypto.hi(password, bytes.value, count.value);
      var clientKey := crypto.hmac(salted, "Client Key");
      var storedKey := crypto.digest(clientKey);
      var clientSignature := crypto.hmac(storedKey, authMessage);
      var proof := Xor(clientKey, clientSignature);
      var serverKey := crypto.hmac(salted, "Server Key");
      expectedServerSignature := Some(crypto.hmac(serverKey, authMessage));
      message := Some(withoutProof + ",p=" + crypto.encode(proof));
    }

    /** `verify_server_final`. */
    method VerifyServerFinal(serverFinal: Option<string>) returns (ok: bool)
      ensures ok <==> && expectedServerSignature.Some? && serverFinal.Some?
                      && Verified(crypto, expectedServerSignature.value, Split(serverFinal.value, ','))
    {
      if expectedServerSignature.None? || serverFinal.None? {
        return false;
      }
      var fields := Split(serverFinal.value, ',');
      for i := 0 to |fields|
        invariant Verified(crypto, expectedServerSignature.value, fields)
             <==> Verified(crypto, expectedServerSignature.value, fields[i..])
      {
        assert fields[i..][1..] == fields[i + 1..];
        if "e=" <= fields[i] {
          return false;
        }
        if "v=" <= fields[i] {
          return crypto.decode(fields[i][2..]) == Some(expectedServerSignature.value);
        }
      }
      ok := false;
    }
  }

  /** `ScramClient::new`; `prepare` is SASLprep, which may refuse a text. */
  method Start(crypto: Crypto, prepare: string -> Option<string>, username: string, password: string, nonce: string, es: Extensions)
    returns (client: ScramClient?)
    ensures client != null <==> prepare(username).Some? && prepare(password).Some? && BareAccepted(nonce, es)
    ensures client != null ==>
              && fresh(client) && client.crypto == crypto && client.clientNonce == nonce
              && client.password == prepare(password).value
              && client.clientFirstBare == Join(BareFields(prepare(username).value, nonce, es), ',')
              && client.expectedServerSignature == None
  {
    client := null;
    if prepare(username).Some? && prepare(password).Some? {
      var bare := ClientFirstBare(prepare(username).value, nonce, es);
      if bare.Some? {
        client := new ScramClient(crypto, prepare(password).value, nonce, bare.value);
      }
    }
  }

  // ---------------------------------------------------------------------- the exchange

  /** What a broker makes of the client messages so far: a failed round trip, or its
      token, if it is text, and the session lifetime. */
  type Broker = seq<string> -> Option<(Option<string>, int)>

  ghost function ExchangeOf(c: Crypto, password: string, nonce: string, bare: string, broker: Broker): Option<int> {
    var first := "n,," + bare;
    var challenge := broker([first]);
    if challenge.None? || challenge.value.0.None? then None
    else
      var serverFirst := challenge.value.0.value;
      var terms := Agreed(c, nonce, serverFirst);
      if terms.None? then None
      else
        var reply := broker([first, ClientFinalMessage(c, password, bare, serverFirst, terms.value)]);
        if reply.None? || reply.value.0.None? then None
        else if Verified(c, ServerSignature(c, password, bare, serverFirst, terms.value), Split(reply.value.0.value, ','))
        then Some(reply.value.1)
        else None
  }

  /** The SCRAM half of `authenticate`. */
  method Exchange(crypto: Crypto, prepare: string -> Option<string>, username: string, password: string, nonce: string, es: Extensions, broker: Broker)
    returns (lifetime: Option<int>)
    ensures lifetime ==
            if prepare(username).Some? && prepare(password).Some? && BareAccepted(nonce, es) then
              ExchangeOf(crypto, prepare(password).value, nonce, Join(BareFields(prepare(username).value, nonce, es), ','), broker)
            else None
  {
    var client := Start(crypto, prepare, username, password, nonce, es);
    if client == null {
      return None;
    }
    var first := "n,," + client.clientFirstBare;
    var challenge := broker([first]);
    if challenge.None? {
      return None;
    }
    var final := client.ClientFinal(challenge.value.0);
    if final.None? {
      return None;
    }
    var reply := broker([first, final.value]);
    if reply.None? {
      return None;
    }
    var ok := client.VerifyServerFinal(reply.value.0);
    lifetime := if ok then Some(reply.value.1) else None;
  }
}
