/** The three fallback routes: Cloudflare workers, the Cloudflare proxy and plain TCP.
    A route that fails leaves the ciphers alone, so the one that bridges starts where
    the handshake left them. */
module Fallback {
  import opened Octets
  import opened Ctr
  import opened Handshake
  import opened WsCodec
  import opened Endpoint
  import opened StreamReaders
  import opened MsgSplitters
  import opened BridgeObjects
  import Sp = Splitter
  import Br = Bridge

  // ---------------------------------------------------------------- plain TCP

  datatype TcpEvent = ClientData(data: Bytes) | ServerData(data: Bytes)

  function FromClient(es: seq<TcpEvent>): Bytes {
    if es == [] then []
    else FromClient(es[..|es| - 1]) + if es[|es| - 1].ClientData? then es[|es| - 1].data else []
  }

  function FromServer(es: seq<TcpEvent>): Bytes {
    if es == [] then []
    else FromServer(es[..|es| - 1]) + if es[|es| - 1].ServerData? then es[|es| - 1].data else []
  }

  /** Each side's stream is what it sent, in order, whatever the other sent in between. */
  lemma {:induction false} StreamsOfEvents(a: seq<TcpEvent>, b: seq<TcpEvent>, data: Bytes)
    ensures FromClient(a + b) == FromClient(a) + FromClient(b)
    ensures FromServer(a + b) == FromServer(a) + FromServer(b)
    ensures FromClient([ClientData(data)]) == data == FromServer([ServerData(data)])
    ensures FromClient([ServerData(data)]) == [] == FromServer([ClientData(data)])
  {
    assert [ClientData(data)][..0] == [] && [ServerData(data)][..0] == [];
    assert FromClient([]) == [] == FromServer([]);
    if b == [] {
      assert a + b == a;
    } else {
      var n := |b| - 1;
      StreamsOfEvents(a, b[..n], data);
      assert (a + b)[..|a| + n] == a + b[..n] && (a + b)[|a| + n] == b[n];
    }
  }

  /** Re-encryption between two byte streams. */
  class TcpBridge {
    const ctx: CryptoCtx
    ghost const suite: Suite
    ghost const keys: Keys
    var toServer: Bytes
    var toClient: Bytes

    ghost predicate Relays(relayInit: Bytes, es: seq<TcpEvent>)
      reads this, ctx.cltDec, ctx.cltEnc, ctx.tgEnc, ctx.tgDec
    {
      var up, down := FromClient(es), FromServer(es);
      && ctx.Holds(suite, keys)
      && ctx.cltDec.pos == ctx.tgEnc.pos == 64 + |up|
      && ctx.tgDec.pos == ctx.cltEnc.pos == |down|
      && toServer == relayInit + Crypt(suite, keys.tgEnc, 64, Crypt(suite, keys.cltDec, 64, up))
      && toClient == Crypt(suite, keys.cltEnc, 0, Crypt(suite, keys.tgDec, 0, down))
    }

    constructor (ctx: CryptoCtx, ghost suite: Suite, ghost keys: Keys, relayInit: Bytes)
      requires ctx.Holds(suite, keys)
      requires ctx.cltDec.pos == 64 && ctx.tgEnc.pos == 64 && ctx.cltEnc.pos == 0 && ctx.tgDec.pos == 0
      ensures Relays(relayInit, []) && this.ctx == ctx && this.suite == suite && this.keys == keys
    {
      this.ctx, this.suite, this.keys := ctx, suite, keys;
      toServer, toClient := relayInit, [];
      assert Crypt(suite, keys.tgEnc, 64, Crypt(suite, keys.cltDec, 64, [])) == [];
      assert Crypt(suite, keys.cltEnc, 0, Crypt(suite, keys.tgDec, 0, [])) == [];
    }

    method Forward(e: TcpEvent, ghost relayInit: Bytes, ghost before: seq<TcpEvent>)
      requires Relays(relayInit, before)
      modifies this, ctx.cltDec, ctx.cltEnc, ctx.tgEnc, ctx.tgDec
      ensures Relays(relayInit, before + [e])
    {
      hide Crypt;
      assert (before + [e])[..|before|] == before;
      match e {
        case ClientData(data) =>
          CryptConcat(suite, keys.cltDec, 64, FromClient(before), data);
          CryptConcat(suite, keys.tgEnc, 64, Crypt(suite, keys.cltDec, 64, FromClient(before)),
                      Crypt(suite, keys.cltDec, 64 + |FromClient(before)|, data));
          var plain := ctx.cltDec.Update(data);
          var enc := ctx.tgEnc.Update(plain);
          toServer := toServer + enc;
          assert FromServer(before) + [] == FromServer(before);
        case ServerData(data) =>
          CryptConcat(suite, keys.tgDec, 0, FromServer(before), data);
          CryptConcat(suite, keys.cltEnc, 0, Crypt(suite, keys.tgDec, 0, FromServer(before)),
                      Crypt(suite, keys.tgDec, |FromServer(before)|, data));
          var plain := ctx.tgDec.Update(data);
          var enc := ctx.cltEnc.Update(plain);
          toClient := toClient + enc;
          assert FromClient(before) + [] == FromClient(before);
      }
    }

    method RunEvents(es: seq<TcpEvent>, ghost relayInit: Bytes)
      requires Relays(relayInit, [])
      modifies this, ctx.cltDec, ctx.cltEnc, ctx.tgEnc, ctx.tgDec
      ensures Relays(relayInit, es)
    {
      hide TcpBridge.Relays;
      assert es[..0] == [];
      for i := 0 to |es|
        invariant Relays(relayInit, es[..i])
      {
        Forward(es[i], relayInit, es[..i]);
        assert es[..i + 1] == es[..i] + [es[i]];
      }
      assert es[..|es|] == es;
    }

    /** The server, decrypting what follows the relay init, has the client's plaintext;
        the client has the server's. */
    lemma TcpEndToEnd(relayInit: Bytes, es: seq<TcpEvent>)
      requires Relays(relayInit, es)
      ensures toServer[..|relayInit|] == relayInit
      ensures Crypt(suite, keys.tgEnc, 64, toServer[|relayInit|..]) == Crypt(suite, keys.cltDec, 64, FromClient(es))
      ensures Crypt(suite, keys.cltEnc, 0, toClient) == Crypt(suite, keys.tgDec, 0, FromServer(es))
    {
      hide Crypt;
      CryptCancels(suite, keys.tgEnc, 64, Crypt(suite, keys.cltDec, 64, FromClient(es)));
      CryptCancels(suite, keys.cltEnc, 0, Crypt(suite, keys.tgDec, 0, FromServer(es)));
      assert toServer[|relayInit|..] == Crypt(suite, keys.tgEnc, 64, Crypt(suite, keys.cltDec, 64, FromClient(es)));
    }
  }

  // ---------------------------------------------------------------- the routes

  datatype Route = Worker | CfProxy | Tcp

  /** What each connection attempt would end in: one entry per worker domain (a pool hit
      counts as success) and per Cloudflare domain, in the order tried. */
  datatype Network = Network(workers: seq<bool>, cfDomains: seq<bool>, tcp: bool)

  /** The first route, in the order worker, proxy, TCP, that is enabled and connects.
      Workers and TCP need a default address for the data centre. */
  function Chosen(hasAddress: bool, useCf: bool, net: Network): Option<Route> {
    if hasAddress && true in net.workers then Some(Worker)
    else if useCf && true in net.cfDomains then Some(CfProxy)
    else if hasAddress && net.tcp then Some(Tcp)
    else None
  }

  /** A worker goes before the proxy and the proxy before TCP; each only when enabled. */
  lemma ChosenOrder(hasAddress: bool, useCf: bool, net: Network)
    ensures var worker := hasAddress && exists i :: 0 <= i < |net.workers| && net.workers[i];
            var proxy := useCf && exists i :: 0 <= i < |net.cfDomains| && net.cfDomains[i];
            var route := Chosen(hasAddress, useCf, net);
            && (route == Some(Worker) <==> worker)
            && (route == Some(CfProxy) <==> !worker && proxy)
            && (route == Some(Tcp) <==> !worker && !proxy && hasAddress && net.tcp)
  {
  }

  /** The session's objects right after the handshake. */
  ghost predicate Ready(ctx: CryptoCtx, splitter: MsgSplitter?, c: Br.Session)
    reads ctx.cltDec, ctx.cltEnc, ctx.tgEnc, ctx.tgDec, splitter, if splitter != null then {splitter.dec} else {}
  {
    && ctx.Holds(c.suite, c.keys)
    && ctx.cltDec.pos == 64 && ctx.tgEnc.pos == 64 && ctx.cltEnc.pos == 0 && ctx.tgDec.pos == 0
    && (splitter != null ==>
          && splitter.Valid() && splitter.Abs() == Sp.INITIAL && splitter.proto == c.proto
          && splitter.dec.suite == c.suite && splitter.dec.key == c.keys.tgEnc
          && splitter.dec !in {ctx.cltDec, ctx.cltEnc, ctx.tgEnc, ctx.tgDec})
  }

  ghost function Ciphers(ctx: CryptoCtx, splitter: MsgSplitter?): set<object> {
    {ctx.cltDec, ctx.cltEnc, ctx.tgEnc, ctx.tgDec} + if splitter != null then {splitter, splitter.dec} else {}
  }

  /** A connected WebSocket: send the relay init, bridge until the session ends. */
  method BridgeOver(ctx: CryptoCtx, splitter: MsgSplitter?, ghost c: Br.Session, relayInit: Block,
                    telegram: StreamReader, mask: MaskKey, es: seq<Br.Event>)
    returns (bridge: ReencryptingBridge)
    requires Ready(ctx, splitter, c)
    requires forall i | 0 <= i < |es| :: Br.Admissible(es[i])
    modifies Ciphers(ctx, splitter)
    ensures bridge.Valid() && bridge.ctx == ctx && bridge.splitter == splitter && bridge.session == c
    ensures bridge.Abs() == Br.Run(c, Br.Start(relayInit, splitter != null), es)
  {
    hide Br.Run;
    var ws := new RawWebSocket(telegram, mask);
    var _ := ws.Send(relayInit);
    bridge := new ReencryptingBridge(ctx, splitter, ws, c, relayInit);
    bridge.RunEvents(es);
  }

  /** Tries connections in order and bridges over the first that opens. */
  method TryWebSockets(attempts: seq<bool>, ctx: CryptoCtx, splitter: MsgSplitter?, ghost c: Br.Session,
                       relayInit: Block, telegram: StreamReader, mask: MaskKey, es: seq<Br.Event>)
    returns (bridge: ReencryptingBridge?, tried: nat)
    requires Ready(ctx, splitter, c)
    requires forall i | 0 <= i < |es| :: Br.Admissible(es[i])
    modifies Ciphers(ctx, splitter)
    ensures tried <= |attempts| && forall i :: 0 <= i < tried ==> !attempts[i]
    ensures bridge != null <==> tried < |attempts| && attempts[tried]
    ensures bridge == null ==> tried == |attempts|
    ensures bridge == null ==> unchanged(Ciphers(ctx, splitter))
    ensures bridge != null ==>
              && bridge.Valid() && bridge.ctx == ctx && bridge.splitter == splitter && bridge.session == c
              && bridge.Abs() == Br.Run(c, Br.Start(relayInit, splitter != null), es)
  {
    for i := 0 to |attempts|
      invariant forall j :: 0 <= j < i ==> !attempts[j]
      invariant unchanged(Ciphers(ctx, splitter))
    {
      if attempts[i] {
        bridge := BridgeOver(ctx, splitter, c, relayInit, telegram, mask, es);
        return bridge, i;
      }
    }
    return null, |attempts|;
  }

  /** At most one route bridges, from the post-handshake state; failure touches nothing. */
  method DoFallback(hasAddress: bool, useCf: bool, net: Network, ctx: CryptoCtx, splitter: MsgSplitter?,
                    ghost c: Br.Session, relayInit: Block, telegram: StreamReader, mask: MaskKey,
                    es: seq<Br.Event>, tcpEvents: seq<TcpEvent>)
    returns (route: Option<Route>, bridge: ReencryptingBridge?, tcp: TcpBridge?)
    requires Ready(ctx, splitter, c)
    requires forall i | 0 <= i < |es| :: Br.Admissible(es[i])
    modifies Ciphers(ctx, splitter)
    ensures route == Chosen(hasAddress, useCf, net)
    ensures bridge != null <==> route in {Some(Worker), Some(CfProxy)}
    ensures tcp != null <==> route == Some(Tcp)
    ensures route == None ==> unchanged(Ciphers(ctx, splitter))
    ensures bridge != null ==>
              && bridge.Valid() && bridge.ctx == ctx && bridge.splitter == splitter && bridge.session == c
              && bridge.Abs() == Br.Run(c, Br.Start(relayInit, splitter != null), es)
    ensures tcp != null ==>
              && tcp.ctx == ctx && tcp.suite == c.suite && tcp.keys == c.keys && tcp.Relays(relayInit, tcpEvents)
              && (splitter != null ==> unchanged(splitter) && unchanged(splitter.dec))
  {
    hide Br.Run;
    route, bridge, tcp := None, null, null;
    var methods: seq<Route> := [];
    var tried;
    if net.workers != [] && hasAddress {
      methods := methods + [Worker];
    }
    if useCf {
      methods := methods + [CfProxy];
    }
    if hasAddress {
      methods := methods + [Tcp];
    }
    assert hasAddress ==> methods[|methods| - 1] == Tcp && (net.workers != [] ==> methods[0] == Worker);
    assert useCf ==> methods[|methods| - if hasAddress then 2 else 1] == CfProxy;
    for i := 0 to |methods|
      invariant unchanged(Ciphers(ctx, splitter)) && bridge == null && tcp == null
      invariant forall j :: 0 <= j < i ==> !Connects(methods[j], net)
    {
      match methods[i] {
        case Worker =>
          bridge, tried := TryWebSockets(net.workers, ctx, splitter, c, relayInit, telegram, mask, es);
        case CfProxy =>
          bridge, tried := TryWebSockets(net.cfDomains, ctx, splitter, c, relayInit, telegram, mask, es);
        case Tcp =>
          if net.tcp {
            tcp := new TcpBridge(ctx, c.suite, c.keys, relayInit);
            tcp.RunEvents(tcpEvents, relayInit);
          }
      }
      if bridge != null || tcp != null {
        route := Some(methods[i]);
        return;
      }
    }
    assert forall r :: r in methods ==> !Connects(r, net);
    assert hasAddress ==> Tcp in methods && (net.workers != [] ==> Worker in methods);
    assert useCf ==> CfProxy in methods;
  }

  predicate Connects(r: Route, net: Network) {
    match r
    case Worker => true in net.workers
    case CfProxy => true in net.cfDomains
    case Tcp => net.tcp
  }
}
