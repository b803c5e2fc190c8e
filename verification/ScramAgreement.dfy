/** Client and an honest server authenticate each other, per section 3 of RFC 5802. */
module ScramAgreement {
  import opened Options
  import opened Text
  import opened Framing
  import opened Scram

  /** What a server keeps of a password. */
  datatype Credential = Credential(salt: Bytes, iterations: nat, stored: Bytes, serverKey: Bytes)

  ghost function CredentialFor(c: Crypto, password: string, salt: Bytes, iterations: nat): Credential {
    var salted := c.hi(password, salt, iterations);
    Credential(salt, iterations, c.digest(c.hmac(salted, "Client Key")), c.hmac(salted, "Server Key"))
  }

  ghost function ServerFirst(c: Crypto, nonce: string, cred: Credential): string {
    Join(["r=" + nonce, "s=" + c.encode(cred.salt), "i=" + Printed(cred.iterations)], ',')
  }

  /** The server checks the channel binding and its nonce, and that the proof opens
      to a key whose digest it stores. */
  ghost predicate ServerAccepts(c: Crypto, cred: Credential, bare: string, serverFirst: string, nonce: string, message: string) {
    var fields := Split(message, ',');
    && |fields| == 3
    && After(fields[0], "c=").Some? && c.decode(After(fields[0], "c=").value) == Some([0x6e, 0x2c, 0x2c])
    && After(fields[1], "r=") == Some(nonce)
    && After(fields[2], "p=").Some? && c.decode(After(fields[2], "p=").value).Some?
    && var auth := bare + "," + serverFirst + "," + fields[0] + "," + fields[1];
       var proof := c.decode(After(fields[2], "p=").value).value;
       && |proof| == c.size
       && exists key :: Opens(proof, c.hmac(cred.stored, auth), key) && c.digest(key) == cred.stored
  }

  /** Byte by byte, the key is what is left of the proof without the signature. */
  ghost predicate Opens(proof: Bytes, signature: Bytes, key: Bytes) {
    |proof| == |signature| == |key| && forall i | 0 <= i < |key| :: key[i] == proof[i] ^ signature[i]
  }

  ghost function ServerFinal(c: Crypto, cred: Credential, bare: string, serverFirst: string, nonce: string): string {
    "v=" + c.encode(c.hmac(cred.serverKey, AuthMessage(c, bare, serverFirst, nonce)))
  }

  // ------------------------------------------------------------------------- the first half

  ghost predicate InRange(nonce: string, ours: string, iterations: nat) {
    ours <= nonce && |nonce| > |ours| && Free(nonce, ',') && 4096 <= iterations <= 1_000_000
  }

  lemma DigitsFree(n: nat)
    ensures Free(Printed(n), ',')
  {
    assert !IsDigit(',');
  }

  lemma ThreeFields(c: Crypto, nonce: string, cred: Credential)
    requires Lawful(c) && Free(nonce, ',')
    ensures Split(ServerFirst(c, nonce, cred), ',') == ["r=" + nonce, "s=" + c.encode(cred.salt), "i=" + Printed(cred.iterations)]
  {
    var fields := ["r=" + nonce, "s=" + c.encode(cred.salt), "i=" + Printed(cred.iterations)];
    DigitsFree(cred.iterations);
    assert Free(c.encode(cred.salt), ',');
    SplitJoin(fields, ',');
  }

  lemma Tagged(tag: string, value: string)
    ensures After(tag + value, tag) == Some(value)
  {
  }

  lemma LastOfThree(a: string, b: string, c: string)
    ensures LastTagged(["r=" + a, "s=" + b, "i=" + c], "r=") == Some(a)
    ensures LastTagged(["r=" + a, "s=" + b, "i=" + c], "s=") == Some(b)
    ensures LastTagged(["r=" + a, "s=" + b, "i=" + c], "i=") == Some(c)
    ensures !Rejects(["r=" + a, "s=" + b, "i=" + c])
  {
    var fields := ["r=" + a, "s=" + b, "i=" + c];
    assert fields[..2] == ["r=" + a, "s=" + b] && fields[..2][..1] == ["r=" + a];
    OneTag("r=" + a);
    OneTag("s=" + b);
    OneTag("i=" + c);
    Tagged("r=", a);
    Tagged("s=", b);
    Tagged("i=", c);
    assert LastTagged(fields[..1], "r=") == Some(a);
    assert LastTagged(fields[..2], "r=") == Some(a);
  }

  /** The client takes an honest server's terms as they are. */
  lemma HonestTerms(c: Crypto, ours: string, nonce: string, cred: Credential)
    requires Lawful(c) && InRange(nonce, ours, cred.iterations)
    ensures Agreed(c, ours, ServerFirst(c, nonce, cred)) == Some(Terms(nonce, cred.salt, cred.iterations))
  {
    ThreeFields(c, nonce, cred);
    LastOfThree(nonce, c.encode(cred.salt), Printed(cred.iterations));
    assert c.decode(c.encode(cred.salt)) == Some(cred.salt) && Free(c.encode(cred.salt), ',');
    ParsePrinted(cred.iterations);
  }

  lemma FinalFields(c: Crypto, nonce: string, proof: Bytes)
    requires Lawful(c) && Free(nonce, ',')
    ensures Split(WithoutProof(c, nonce) + ",p=" + c.encode(proof), ',') == ["c=" + c.encode(HEADER), "r=" + nonce, "p=" + c.encode(proof)]
  {
    var channel, nonceField, proofField := "c=" + c.encode(HEADER), "r=" + nonce, "p=" + c.encode(proof);
    assert Free(c.encode(HEADER), ',') && Free(c.encode(proof), ',');
    SplitWhole(proofField, ',');
    SplitFirst(nonceField, proofField, ',');
    SplitFirst(channel, nonceField + [','] + proofField, ',');
    assert WithoutProof(c, nonce) + ",p=" + c.encode(proof) == channel + [','] + (nonceField + [','] + proofField);
  }

  /** For every password, salt, extending comma-free nonce and iteration count in
      range, the server holding the matching keys accepts the client's proof. */
  lemma ServerAcceptsClient(c: Crypto, password: string, bare: string, ours: string, nonce: string, salt: Bytes, iterations: nat)
    requires Lawful(c) && InRange(nonce, ours, iterations)
    ensures var cred := CredentialFor(c, password, salt, iterations);
            var serverFirst := ServerFirst(c, nonce, cred);
            var terms := Agreed(c, ours, serverFirst);
            terms.Some? && ServerAccepts(c, cred, bare, serverFirst, nonce, ClientFinalMessage(c, password, bare, serverFirst, terms.value))
  {
    var cred := CredentialFor(c, password, salt, iterations);
    var serverFirst := ServerFirst(c, nonce, cred);
    HonestTerms(c, ours, nonce, cred);
    var terms := Terms(nonce, salt, iterations);
    var auth := AuthMessage(c, bare, serverFirst, nonce);
    var key := ClientKey(c, c.hi(password, salt, iterations));
    var signature := c.hmac(c.digest(key), auth);
    var proof := Xor(key, signature);
    assert |key| == c.size && |signature| == c.size;
    XorTwice(key, signature);
    assert Opens(proof, signature, key);
    FinalFields(c, nonce, proof);
    AuthAgrees(c, bare, serverFirst, nonce);
    Tagged("c=", c.encode(HEADER));
    Tagged("r=", nonce);
    Tagged("p=", c.encode(proof));
    assert c.decode(c.encode(HEADER)) == Some(HEADER) && c.decode(c.encode(proof)) == Some(proof);
  }

  lemma AuthAgrees(c: Crypto, bare: string, serverFirst: string, nonce: string)
    ensures bare + "," + serverFirst + "," + ("c=" + c.encode(HEADER)) + "," + ("r=" + nonce) == AuthMessage(c, bare, serverFirst, nonce)
  {
    assert WithoutProof(c, nonce) == ("c=" + c.encode(HEADER)) + "," + ("r=" + nonce);
  }

  // ------------------------------------------------------------------------ the second half

  /** The client accepts exactly one signature: its own computation of the server's. */
  lemma ClientAcceptsExactly(c: Crypto, expected: Bytes, signature: Bytes)
    requires Lawful(c)
    ensures Verified(c, expected, Split("v=" + c.encode(signature), ',')) <==> signature == expected
  {
    var field := "v=" + c.encode(signature);
    assert c.decode(c.encode(signature)) == Some(signature) && Free(c.encode(signature), ',');
    SplitWhole(field, ',');
    OneTag(field);
    Tagged("v=", c.encode(signature));
  }

  /** Of any final message at all, the client accepts exactly those whose first
      verdict is a verifier of the expected signature. */
  lemma {:induction false} VerdictExact(c: Crypto, expected: Bytes, fields: seq<string>)
    ensures Verified(c, expected, fields) <==>
            exists i :: 0 <= i < |fields| && Decides(fields, i) && After(fields[i], "v=").Some?
              && c.decode(After(fields[i], "v=").value) == Some(expected)
  {
    if fields != [] {
      OneTag(fields[0]);
      if After(fields[0], "e=").Some? || After(fields[0], "v=").Some? {
        assert Decides(fields, 0);
        assert forall i | 0 < i < |fields| :: !Decides(fields, i);
      } else {
        var rest := fields[1..];
        VerdictExact(c, expected, rest);
        forall i | 0 <= i < |rest|
          ensures Decides(rest, i) <==> Decides(fields, i + 1)
          ensures rest[i] == fields[i + 1]
        {
          assert Decides(fields, i + 1) ==> Decides(rest, i) by {
            assert forall j | 0 <= j < i :: rest[j] == fields[j + 1];
          }
        }
        if i :| 0 <= i < |fields| && Decides(fields, i) && After(fields[i], "v=").Some? && c.decode(After(fields[i], "v=").value) == Some(expected) {
          assert Decides(rest, i - 1);
        }
      }
    }
  }

  ghost predicate Decides(fields: seq<string>, i: int)
    requires 0 <= i < |fields|
  {
    && (After(fields[i], "e=").Some? || After(fields[i], "v=").Some?)
    && forall j | 0 <= j < i :: After(fields[j], "e=").None? && After(fields[j], "v=").None?
  }

  // ------------------------------------------------------------------------ the whole exchange

  /** The server that knows `cred`: it extends the nonce it reads in the client's
      first message, and signs once it has accepted the proof. */
  ghost function HonestServer(c: Crypto, cred: Credential, extension: string, lifetime: int): Broker {
    (messages: seq<string>) =>
      if messages == [] || After(messages[0], "n,,").None? then None
      else
        var bare := After(messages[0], "n,,").value;
        var read := ParseBare(bare);
        if read.None? then None
        else
          var nonce := read.value.1 + extension;
          var serverFirst := ServerFirst(c, nonce, cred);
          if |messages| == 1 then Some((Some(serverFirst), 0))
          else if ServerAccepts(c, cred, bare, serverFirst, nonce, messages[1])
          then Some((Some(ServerFinal(c, cred, bare, serverFirst, nonce)), lifetime))
          else None
  }

  /** Every accepted login succeeds against the server that holds its keys. */
  lemma Agreement(c: Crypto, username: string, password: string, nonce: string, es: Extensions, salt: Bytes, iterations: nat, extension: string, lifetime: int)
    requires Lawful(c) && BareAccepted(nonce, es)
    requires extension != "" && Free(extension, ',') && 4096 <= iterations <= 1_000_000
    ensures var server := HonestServer(c, CredentialFor(c, password, salt, iterations), extension, lifetime);
            ExchangeOf(c, password, nonce, Join(BareFields(username, nonce, es), ','), server) == Some(lifetime)
  {
    hide ServerAccepts;
    hide ServerFirst;
    hide Agreed;
    hide Verified;
    hide ClientFinalMessage;
    hide HonestServer;
    hide Split;
    var cred := CredentialFor(c, password, salt, iterations);
    var bare, full := Join(BareFields(username, nonce, es), ','), nonce + extension;
    var serverFirst := ServerFirst(c, full, cred);
    var terms := Terms(full, salt, iterations);
    BareRoundTrip(username, nonce, es);
    ServerAcceptsClient(c, password, bare, nonce, full, salt, iterations);
    HonestTerms(c, nonce, full, cred);
    HonestReplies(c, cred, extension, lifetime, bare, nonce, ClientFinalMessage(c, password, bare, serverFirst, terms));
    ClientAcceptsExactly(c, ServerSignature(c, password, bare, serverFirst, terms),
                         c.hmac(cred.serverKey, AuthMessage(c, bare, serverFirst, full)));
  }

  lemma HonestReplies(c: Crypto, cred: Credential, extension: string, lifetime: int, bare: string, nonce: string, message: string)
    requires ParseBare(bare).Some? && ParseBare(bare).value.1 == nonce
    requires ServerAccepts(c, cred, bare, ServerFirst(c, nonce + extension, cred), nonce + extension, message)
    ensures var server := HonestServer(c, cred, extension, lifetime);
            var serverFirst := ServerFirst(c, nonce + extension, cred);
            && server(["n,," + bare]) == Some((Some(serverFirst), 0))
            && server(["n,," + bare, message]) == Some((Some(ServerFinal(c, cred, bare, serverFirst, nonce + extension)), lifetime))
  {
    hide ServerAccepts;
    hide ServerFirst;
    hide ServerFinal;
    hide ParseBare;
    Tagged("n,,", bare);
  }

  /** Whoever the broker is, a login succeeds only if its last message carries, as
      its first verdict, the signature made with the server key of this very
      password over this very exchange. */
  lemma PeerKnowsTheKey(c: Crypto, password: string, nonce: string, bare: string, broker: Broker)
    requires ExchangeOf(c, password, nonce, bare, broker).Some?
    ensures exists serverFirst, terms, reply ::
              && Settles(c, nonce, serverFirst, terms)
              && |terms.nonce| > |nonce| && terms.nonce[..|nonce|] == nonce && 4096 <= terms.iterations <= 1_000_000
              && broker(["n,," + bare]).Some? && broker(["n,," + bare]).value.0 == Some(serverFirst)
              && broker(["n,," + bare, ClientFinalMessage(c, password, bare, serverFirst, terms)]) == Some(reply)
              && reply.0.Some?
              && exists i :: 0 <= i < |Split(reply.0.value, ',')| && Decides(Split(reply.0.value, ','), i)
                   && After(Split(reply.0.value, ',')[i], "v=").Some?
                   && c.decode(After(Split(reply.0.value, ',')[i], "v=").value) == Some(ServerSignature(c, password, bare, serverFirst, terms))
  {
    hide ServerSignature;
    hide ClientFinalMessage;
    hide Verified;
    hide Split;
    var serverFirst := broker(["n,," + bare]).value.0.value;
    var terms := Agreed(c, nonce, serverFirst).value;
    var reply := broker(["n,," + bare, ClientFinalMessage(c, password, bare, serverFirst, terms)]).value;
    AgreedExact(c, nonce, serverFirst, terms);
    VerdictExact(c, ServerSignature(c, password, bare, serverFirst, terms), Split(reply.0.value, ','));
  }

  /** A server nonce that does not start with the client's, or adds nothing to it, is
      refused, whatever else the message says. */
  lemma ForeignNonceRefused(c: Crypto, ours: string, serverFirst: string, i: nat)
    requires LastField(Split(serverFirst, ','), "r=", i)
    requires var nonce := Split(serverFirst, ',')[i][2..];
             |nonce| <= |ours| || nonce[..|ours|] != ours
    ensures Agreed(c, ours, serverFirst) == None
  {
    hide Split;
    if Agreed(c, ours, serverFirst).Some? {
      var t := Agreed(c, ours, serverFirst).value;
      AgreedExact(c, ours, serverFirst, t);
      OneLastField(Split(serverFirst, ','), "r=", i);
      assert false;
    }
  }
}
