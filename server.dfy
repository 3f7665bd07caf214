/**
 * The server side of the two-party matrix multiplication protocol: it receives the
 * homomorphic-encryption parameters, reads its private input matrix, and exchanges
 * ciphertext lists with the client.  Ciphertexts and serialised keys are opaque strings;
 * a list of them travels as one message, the parts joined by the separator "[@@@]".
 *
 * Each step that calls `recv` on the channel takes what that call delivers as an
 * `Option<string>` parameter (None when `recv` returns false); every message sent or
 * received is appended to `trace`, so the order of the transport calls is part of the
 * state.  `exit(-1)` becomes a failure result.
 */
module Protocol {
  import opened Wrappers
  import opened Utils
  import opened Dimensions

  /** The separator between the parts of a framed message. */
  const Separator: string := "[@@@]"

  /** The label the receiving side sends when it is ready for ciphertexts. */
  const ReadyToken: string := "ready-recv-he"

  /** The separator the client uses to frame its parameters. */
  const ClientSeparator: string := "[@]"

  /** A transport call and the message it carried. */
  datatype Event = Sent(msg: string) | Received(msg: string)

  /** Why a step aborts the server process. */
  datatype Failure =
    | CommunicationFailed  // comm->recv returned false
    | InvalidLabel         // the ready token did not match
    | MissingParts         // the parameter message split into fewer than five parts
    | ParamsNotReceived    // readSInputMatrix before recvHEParams

  /** The five parts of the parameter message, as serialised strings. */
  datatype HEParams = HEParams(params: string, publicKey: string, relinKeys: string, galoisKeys: string,
                               polyModulusDegree: string)

  /** The parts of a parameter message, in order. */
  function Parts(p: HEParams): seq<string>
  {
    [p.params, p.publicKey, p.relinKeys, p.galoisKeys, p.polyModulusDegree]
  }

  /**
   * The parsing step of `recvHEParams`: split the message on the separator and take parts
   * 0 to 4; a message of fewer than five parts is rejected (the source would index past
   * the end of the vector).
   */
  function ParseHEParams(msg: string): (r: Result<HEParams, Failure>)
    ensures r.Err? <==> |Tokens(msg, Separator)| < 5
    ensures r.Err? ==> r.error == MissingParts
    ensures r.Ok? ==> Parts(r.value) == Tokens(msg, Separator)[..5]
  {
    var parts := Tokens(msg, Separator);
    if |parts| < 5 then Err(MissingParts)
    else Ok(HEParams(parts[0], parts[1], parts[2], parts[3], parts[4]))
  }

  /** The message a sender has to build for `recvHEParams`: the five parts joined by the separator. */
  function FrameHEParams(p: HEParams): string
  {
    Join(Parts(p), Separator)
  }

  /** "[@@@]" has no proper prefix that is also a suffix, so its occurrences never overlap. */
  lemma SeparatorUnbordered()
    ensures Unbordered(Separator)
  {
    forall k | 0 < k < |Separator| ensures Separator[..k] != Separator[|Separator| - k..] {
      assert Separator[..k][0] == '[';
      assert Separator[|Separator| - k..][0] != '[';
    }
  }

  /** Splitting a non-empty joined list of blobs, none containing the separator, gives the list back. */
  lemma CipherFramingRoundTrip(blobs: seq<string>)
    requires |blobs| >= 1
    requires forall i :: 0 <= i < |blobs| ==> !Contains(blobs[i], Separator)
    ensures Tokens(Join(blobs, Separator), Separator) == blobs
  {
    SeparatorUnbordered();
    TokensOfJoin(blobs, Separator);
  }

  /** An empty ciphertext list is sent as the empty string, which splits into one empty blob. */
  lemma EmptyCipherList()
    ensures Join([], Separator) == ""
    ensures Tokens("", Separator) == [""]
  {
    assert FindFrom("", Separator, 0) == None;
  }

  /** A parameter message framed from parts free of the separator parses back to those parts. */
  lemma ParamsFrameRoundTrip(p: HEParams)
    requires forall i :: 0 <= i < 5 ==> !Contains(Parts(p)[i], Separator)
    ensures ParseHEParams(FrameHEParams(p)) == Ok(p)
  {
    CipherFramingRoundTrip(Parts(p));
  }

  /** The framing loop of `sendHECipher`: each blob followed by the separator, except the last. */
  method FrameCiphers(ciphers: seq<string>) returns (framed: string)
    ensures framed == Join(ciphers, Separator)
  {
    framed := "";
    var i := 0;
    while i < |ciphers|
      invariant 0 <= i <= |ciphers|
      invariant i == 0 ==> framed == ""
      invariant 0 < i < |ciphers| ==> framed == Join(ciphers[..i], Separator) + Separator
      invariant 0 < i == |ciphers| ==> framed == Join(ciphers, Separator)
    {
      if i > 0 {
        JoinSnoc(ciphers[..i], ciphers[i], Separator);
        assert ciphers[..i] + [ciphers[i]] == ciphers[..i + 1];
      } else {
        assert Join(ciphers[..1], Separator) == ciphers[0];
      }
      if i < |ciphers| - 1 {
        framed := framed + ciphers[i] + Separator;
      } else {
        framed := framed + ciphers[i];
      }
      i := i + 1;
      if i == |ciphers| {
        assert ciphers[..i] == ciphers;
      }
    }
  }

  /** The loading loop of `recvHECipher`: one ciphertext appended per token, in order. */
  method AppendAll(received: seq<string>, tokens: seq<string>) returns (all: seq<string>)
    ensures all == received + tokens
  {
    all := received;
    var i := 0;
    while i < |tokens|
      invariant 0 <= i <= |tokens|
      invariant all == received + tokens[..i]
    {
      assert tokens[..i + 1] == tokens[..i] + [tokens[i]];
      all := all + [tokens[i]];
      i := i + 1;
    }
    assert tokens[..i] == tokens;
  }

  /**
   * The shape `multiplication_offline` works with: the client's random matrix taken
   * transposed, so its rows are first_col and its columns first_row.
   */
  function TransposedOperand(info: MatrixInfo): (s: Shape)
    ensures s == Transpose(LeftShape(info))
  {
    Shape(info.firstCol, info.firstRow)
  }

  /**
   * With the transposed operand, the server's product S^T * R^T has the shape of the
   * transposed result (R * S)^T, for every descriptor the constructor builds.
   */
  lemma OfflineShapesAgree(i: int, k: int, m: int, n: int)
    ensures Product(Transpose(RightShape(NewMatrixInfo(i, k, m, n))), TransposedOperand(NewMatrixInfo(i, k, m, n)))
      == Some(Transpose(Shape(k, n)))
  {
    TransposedProduct(LeftShape(NewMatrixInfo(i, k, m, n)), RightShape(NewMatrixInfo(i, k, m, n)));
  }

  /** The client frames its four parameter parts with "[@]", and without the fifth part. */
  function ClientFrameHEParams(params: string, publicKey: string, relinKeys: string, galoisKeys: string): string
  {
    Join([params, publicKey, relinKeys, galoisKeys], ClientSeparator)
  }

  /**
   * "[@@@]" cannot overlap a "[@]": its only '[' is its first character, so an occurrence
   * covering the '[' of "[@]" would need '@' where "[@]" has ']', and one covering only
   * the ']' would need ']' among its first two characters.
   */
  lemma ClientSeparatorAvoidsSeparator(a: string, b: string)
    requires !Contains(a, Separator) && !Contains(b, Separator)
    ensures !Contains(a + ClientSeparator + b, Separator)
  {
    var s := a + ClientSeparator + b;
    var n := |a|;
    assert s[n] == '[' && s[n + 1] == '@' && s[n + 2] == ']';
    forall q | 0 <= q <= |s| ensures !OccursAt(s, Separator, q) {
      if OccursAt(s, Separator, q) {
        var w := s[q..q + 5];
        assert w == Separator;
        if q + 5 <= n {
          assert a[q..q + 5] == w;
          assert OccursAt(a, Separator, q);
          assert false;
        } else if q >= n + 3 {
          assert b[q - n - 3..q - n + 2] == w;
          assert OccursAt(b, Separator, q - n - 3);
          assert false;
        } else {
          assert false;
        }
      }
    }
  }

  /** Parts free of "[@@@]" joined with "[@]" are still free of it. */
  lemma {:induction false} ClientJoinAvoidsSeparator(parts: seq<string>)
    requires |parts| >= 1
    requires forall i :: 0 <= i < |parts| ==> !Contains(parts[i], Separator)
    ensures !Contains(Join(parts, ClientSeparator), Separator)
    decreases |parts|
  {
    if |parts| > 1 {
      ClientJoinAvoidsSeparator(parts[1..]);
      ClientSeparatorAvoidsSeparator(parts[0], Join(parts[1..], ClientSeparator));
    }
  }

  /**
   * The client's parameter message does not parse on the server: for any four parts free
   * of "[@@@]", the server finds a single part, not five.
   */
  lemma ClientFramingMismatch(params: string, publicKey: string, relinKeys: string, galoisKeys: string)
    requires !Contains(params, Separator) && !Contains(publicKey, Separator)
    requires !Contains(relinKeys, Separator) && !Contains(galoisKeys, Separator)
    ensures Tokens(ClientFrameHEParams(params, publicKey, relinKeys, galoisKeys), Separator) ==
      [ClientFrameHEParams(params, publicKey, relinKeys, galoisKeys)]
    ensures ParseHEParams(ClientFrameHEParams(params, publicKey, relinKeys, galoisKeys)) == Err(MissingParts)
  {
    var parts := [params, publicKey, relinKeys, galoisKeys];
    ClientJoinAvoidsSeparator(parts);
    SingleTokenIffNoDelimiter(ClientFrameHEParams(params, publicKey, relinKeys, galoisKeys), Separator);
  }

  /** The server's protocol state. */
  class Server {
    /** Set once the HE parameters have been received; taken to start false. */
    var isRecvHE: bool
    /** The matrix descriptors the server was started with. */
    var infos: seq<MatrixInfo>
    /** The parameters received from the client. */
    var heParams: Option<HEParams>
    /** The shape of the private input matrix read by `readSInputMatrix`. */
    var inputShape: Option<Shape>
    /** The messages sent and received, in order. */
    var trace: seq<Event>

    constructor (matrixInfos: seq<MatrixInfo>)
      ensures !isRecvHE && infos == matrixInfos && heParams == None && inputShape == None && trace == []
    {
      isRecvHE := false;
      infos := matrixInfos;
      heParams := None;
      inputShape := None;
      trace := [];
    }

    /**
     * `readSInputMatrix(idx)`: aborts unless the parameters have been received; otherwise
     * reads a second_row x second_col matrix.
     */
    method ReadSInputMatrix(idx: int) returns (o: Outcome<Failure>)
      requires isRecvHE ==> 0 <= idx < |infos|
      modifies this
      ensures isRecvHE == old(isRecvHE) && infos == old(infos) && heParams == old(heParams) && trace == old(trace)
      ensures !old(isRecvHE) ==> o == Fail(ParamsNotReceived) && inputShape == old(inputShape)
      ensures old(isRecvHE) ==> o == Pass && inputShape == Some(RightShape(infos[idx]))
    {
      if !isRecvHE {
        return Fail(ParamsNotReceived);
      }
      var info := infos[idx];
      var row, col := info.secondRow, info.secondCol;
      inputShape := Some(Shape(row, col));
      return Pass;
    }

    /**
     * `recvHEParams`: receive the parameter message and parse its five parts; only on
     * success is `isRecvHE` set, as the last step.
     */
    method RecvHEParams(incoming: Option<string>) returns (o: Outcome<Failure>)
      modifies this
      ensures incoming.None? ==> o == Fail(CommunicationFailed) && trace == old(trace)
      ensures incoming.Some? ==> trace == old(trace) + [Received(incoming.value)]
      ensures incoming.Some? && ParseHEParams(incoming.value).Err? ==> o == Fail(MissingParts)
      ensures incoming.Some? && ParseHEParams(incoming.value).Ok? ==>
        o == Pass && heParams == Some(ParseHEParams(incoming.value).value) && isRecvHE
      ensures o.Fail? ==> isRecvHE == old(isRecvHE) && heParams == old(heParams)
      ensures infos == old(infos) && inputShape == old(inputShape)
    {
      if incoming.None? {
        return Fail(CommunicationFailed);
      }
      var msg := incoming.value;
      trace := trace + [Received(msg)];
      var parsed := Split(msg, Separator);
      if |parsed| < 5 {
        return Fail(MissingParts);
      }
      heParams := Some(HEParams(parsed[0], parsed[1], parsed[2], parsed[3], parsed[4]));
      isRecvHE := true;
      return Pass;
    }

    /**
     * `sendHECipher`: wait for the ready token, abort on any other label, then send the
     * ciphertexts framed as one message.
     */
    method SendHECipher(ready: Option<string>, ciphers: seq<string>) returns (o: Outcome<Failure>)
      modifies this
      ensures ready.None? ==> o == Fail(CommunicationFailed) && trace == old(trace)
      ensures ready.Some? && ready.value != ReadyToken ==>
        o == Fail(InvalidLabel) && trace == old(trace) + [Received(ready.value)]
      ensures ready == Some(ReadyToken) ==>
        o == Pass && trace == old(trace) + [Received(ReadyToken), Sent(Join(ciphers, Separator))]
      ensures isRecvHE == old(isRecvHE) && infos == old(infos) && heParams == old(heParams)
      ensures inputShape == old(inputShape)
    {
      if ready.None? {
        return Fail(CommunicationFailed);
      }
      trace := trace + [Received(ready.value)];
      if ready.value != ReadyToken {
        return Fail(InvalidLabel);
      }
      var framed := FrameCiphers(ciphers);
      trace := trace + [Sent(framed)];
      return Pass;
    }

    /**
     * `recvHECipher`: send the ready token, then receive one message and append one
     * ciphertext per part to `received`.  Loading a ciphertext dereferences the HE context,
     * which exists only once the parameters have been received.
     */
    method RecvHECipher(incoming: Option<string>, received: seq<string>) returns (r: Result<seq<string>, Failure>)
      requires isRecvHE
      modifies this
      ensures incoming.None? ==> r == Err(CommunicationFailed) && trace == old(trace) + [Sent(ReadyToken)]
      ensures incoming.Some? ==>
        r == Ok(received + Tokens(incoming.value, Separator)) &&
        trace == old(trace) + [Sent(ReadyToken), Received(incoming.value)]
      ensures isRecvHE == old(isRecvHE) && infos == old(infos) && heParams == old(heParams)
      ensures inputShape == old(inputShape)
    {
      trace := trace + [Sent(ReadyToken)];
      if incoming.None? {
        return Err(CommunicationFailed);
      }
      trace := trace + [Received(incoming.value)];
      var parts := Split(incoming.value, Separator);
      var all := AppendAll(received, parts);
      return Ok(all);
    }

    /**
     * `multiplication_offline(idx)`: receive the client's ciphertexts, multiply them by the
     * private input with `multiply` (the homomorphic product, passed in) using the
     * transposed shape, and send the products back.
     */
    method MultiplicationOffline(idx: int, incoming: Option<string>, ready: Option<string>,
                                 multiply: (seq<string>, int) -> seq<string>)
      returns (o: Outcome<Failure>, operand: Shape)
      requires isRecvHE && 0 <= idx < |infos|
      modifies this
      ensures isRecvHE == old(isRecvHE) && infos == old(infos) && heParams == old(heParams)
      ensures inputShape == old(inputShape)
      ensures operand == TransposedOperand(infos[idx])
      ensures incoming.None? ==> o == Fail(CommunicationFailed) && trace == old(trace) + [Sent(ReadyToken)]
      ensures incoming.Some? ==>
        var products := multiply(Tokens(incoming.value, Separator), infos[idx].firstRow);
        var exchanged := old(trace) + [Sent(ReadyToken), Received(incoming.value)];
        (ready.None? ==> o == Fail(CommunicationFailed) && trace == exchanged) &&
        (ready.Some? && ready.value != ReadyToken ==>
          o == Fail(InvalidLabel) && trace == exchanged + [Received(ready.value)]) &&
        (ready == Some(ReadyToken) ==>
          o == Pass && trace == exchanged + [Received(ReadyToken), Sent(Join(products, Separator))])
    {
      var info := infos[idx];
      var rowRT, colRT := info.firstCol, info.firstRow;
      operand := Shape(rowRT, colRT);
      var r := RecvHECipher(incoming, []);
      if r.Err? {
        return Fail(r.error), operand;
      }
      assert r.value == Tokens(incoming.value, Separator);
      var products := multiply(r.value, colRT);
      o := SendHECipher(ready, products);
    }
  }
}
