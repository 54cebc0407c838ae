/**
 * `UdpServer\UdpServer`: the listener for the registry's UDP push.
 *
 * A packet is the already decoded JSON object; a push names a changed
 * service as `group@@service`. The server looks that service up among the
 * configured consumers, re-reads its instances from the registry, hands a
 * one-item batch to the driver's `syncNodes`, and acknowledges. Any error
 * inside the handler is logged and swallowed, so it ends with no reply.
 */
module UdpServer {
  import opened Php
  import opened Batches
  import opened Responses
  import Client

  const PushAck: string := "push-ack"
  const DumpAck: string := "dump-ack"
  /** The acknowledgement for anything else, spelled as the registry protocol spells it. */
  const UnknownAck: string := "unknow-ack"

  /** `lastRefTime` of a packet: milliseconds, or a value `/ 1000` rejects with a `TypeError`. */
  datatype RefTime = Millis(ms: int) | NotNumeric

  /**
   * `json_decode($data['data'], true)`: an array with an optional `name`,
   * anything else that decodes, or a `data` that is itself an array, which
   * `json_decode` rejects with a `TypeError`.
   */
  datatype Content = NotAnArray | Message(name: Option<string>) | Rejected

  /** The keys of the decoded packet the handler reads; `None` is "not set". */
  datatype Fields = Fields(kind: Option<string>, lastRefTime: Option<RefTime>, content: Content)

  /** `json_decode($data, true)`: an array, or anything that is not one. */
  datatype Packet = Undecodable | Decoded(fields: Fields)

  /** `$clientInfo`: where the packet came from. */
  datatype Peer = Peer(address: string, port: int)

  /** `$server->sendto(...)` */
  datatype Datagram = Datagram(to: Peer, response: Response)

  /** The two readings of `time()` in the handler. */
  datatype Clock = Clock(atReceipt: int, afterDecode: int)

  /** The configuration the listener reads: group name, consumers and `services.driver`. */
  datatype Settings = Settings(groupName: Option<string>, consumers: seq<Client.ConsumerConfig>, driver: Option<string>)

  /** What `upInstance` did: nothing, a sync of one batch, or a throw. */
  datatype Push = NoSync | Sync(batch: Batch) | Threw

  /** The outcome of one packet: the reply sent, if any, and the batch synced, if any. */
  datatype Handled = Handled(reply: Option<Datagram>, sync: Option<Batch>)

  // ---------------------------------------------------------------------------
  // upInstance

  /**
   * The service a pushed `name` refers to: the second `@@`-piece, provided
   * neither the name nor that piece is empty in PHP's sense.
   */
  function ServiceName(name: Option<string>): (svc: Option<string>)
    ensures svc.Some? ==>
      && name.Some? && HasSeparator(name.value)
      && 2 <= |Explode(name.value)| && svc.value == Explode(name.value)[1]
    ensures svc.Some? ==> !EmptyString(svc.value) && !HasSeparator(svc.value)
    ensures name.Some? && !EmptyString(name.value) && 2 <= |Explode(name.value)| && !EmptyString(Explode(name.value)[1]) ==>
      svc == Some(Explode(name.value)[1])
  {
    if name.None? || EmptyString(name.value) then None
    else
      var parts := Explode(name.value);
      ExplodeSinglePiece(name.value);
      ExplodePiecesHaveNoSeparator(name.value);
      if |parts| < 2 || EmptyString(parts[1]) then None
      else
        assert parts[1] in parts;
        Some(parts[1])
  }

  /** A string without the separator is its own single piece. */
  lemma ExplodeWhole(s: string)
    requires !HasSeparator(s)
    ensures Explode(s) == [s]
  {
    ExplodeSinglePiece(s);
    ImplodeExplode(s);
  }

  /** `explode` splits `group@@service` back into its two parts. */
  lemma {:induction false} ExplodeGrouped(group: string, service: string)
    requires !HasSeparator(group) && (|group| == 0 || group[|group| - 1] != '@')
    requires !HasSeparator(service)
    ensures Explode(group + "@@" + service) == [group, service]
    decreases |group|
  {
    var s := group + "@@" + service;
    if |group| == 0 {
      assert s[2..] == service;
      ExplodeWhole(service);
    } else {
      assert s[1..] == group[1..] + "@@" + service;
      if |group| >= 2 {
        assert !(group[0] == '@' && group[1] == '@');
      }
      assert !HasSeparator(group[1..]) by {
        forall i | 0 <= i < |group[1..]| - 1
          ensures !(group[1..][i] == '@' && group[1..][i + 1] == '@')
        {
          assert group[1..][i] == group[i + 1] && group[1..][i + 1] == group[i + 2];
        }
      }
      ExplodeGrouped(group[1..], service);
      assert [group[0]] + group[1..] == group;
    }
  }

  /** A pushed `group@@service` name refers to `service`. */
  lemma GroupedNameNamesService(group: string, service: string)
    requires !HasSeparator(group) && (|group| == 0 || group[|group| - 1] != '@')
    requires !HasSeparator(service) && !EmptyString(service)
    ensures ServiceName(Some(group + "@@" + service)) == Some(service)
  {
    ExplodeGrouped(group, service);
  }

  /** A name without the separator never refers to a service. */
  lemma UngroupedNameIgnored(name: string)
    requires !HasSeparator(name)
    ensures ServiceName(Some(name)).None?
  {
  }

  /** The first configured consumer named `svc`, as the `foreach … break` finds it. */
  function FirstConsumer(list: seq<Client.ConsumerConfig>, svc: string): (r: Option<Client.ConsumerConfig>)
    ensures r.None? <==> forall i :: 0 <= i < |list| ==> list[i].name != svc
    ensures r.Some? ==> exists i :: (0 <= i < |list| && list[i] == r.value && list[i].name == svc
      && forall j :: 0 <= j < i ==> list[j].name != svc)
    decreases |list|
  {
    if |list| == 0 then None
    else if list[0].name == svc then Some(list[0])
    else
      var r := FirstConsumer(list[1..], svc);
      assert forall i :: 0 < i < |list| ==> list[1..][i - 1] == list[i];
      r
  }

  /** `services.driver` is falsy, so no driver is created and `method_exists(null, …)` throws. */
  predicate NoDriver(driver: Option<string>) {
    EmptyValue(driver)
  }

  /** The consumer found has both a balancer and a namespace, so `upInstance` goes on to query. */
  predicate Routable(found: Option<Client.ConsumerConfig>) {
    found.Some? && !EmptyValue(found.value.loadBalancer) && !EmptyValue(found.value.namespaceId)
  }

  /**
   * `upInstance($content)`: re-read the pushed service from the registry and
   * hand it to the driver as a one-item batch.
   */
  function UpInstance(
    name: Option<string>, settings: Settings, client: Client.State, registry: Client.Registry, fetch: nat): (push: Push)
    ensures push.Sync? ==>
      && ServiceName(name).Some? && FirstConsumer(settings.consumers, ServiceName(name).value).Some?
      && var c := FirstConsumer(settings.consumers, ServiceName(name).value).value;
      && Routable(Some(c))
      && settings.groupName.Some? && !NoDriver(settings.driver)
      && push.batch == [Snapshot(c.name, c.loadBalancer.value,
           Client.GetNodesOneByListener(client, c.name, settings.groupName.value, c.namespaceId.value, c.loadBalancer.value, registry, fetch))]
    ensures ServiceName(name).None? ==> push == NoSync
    ensures ServiceName(name).Some? ==> var found := FirstConsumer(settings.consumers, ServiceName(name).value);
      && (!Routable(found) ==> push == NoSync)
      && (Routable(found) ==> (push == Threw <==> settings.groupName.None? || NoDriver(settings.driver)))
      && (Routable(found) && settings.groupName.Some? && !NoDriver(settings.driver) ==> push.Sync?)
    ensures push == Threw ==> settings.groupName.None? || NoDriver(settings.driver)
  {
    match ServiceName(name)
    case None => NoSync
    case Some(svc) =>
      var found := FirstConsumer(settings.consumers, svc);
      // `$loadBalance = $namespaceId = ""` unless a consumer is found; its keys may be null.
      var loadBalance := if found.Some? then found.value.loadBalancer else Some("");
      var namespaceId := if found.Some? then found.value.namespaceId else Some("");
      if EmptyValue(loadBalance) || EmptyValue(namespaceId) then NoSync
      else if settings.groupName.None? then Threw
      else
        var nodes := Client.GetNodesOneByListener(client, svc, settings.groupName.value, namespaceId.value, loadBalance.value, registry, fetch);
        if NoDriver(settings.driver) then Threw
        else Sync([Snapshot(svc, loadBalance.value, nodes)])
  }

  // ---------------------------------------------------------------------------
  // onPacket

  /**
   * The `lastRefTime` the reply carries: the packet's milliseconds as whole
   * seconds, truncated toward zero, or the clock when the packet has none;
   * `None` when the division throws.
   */
  function ReplyTime(lastRefTime: Option<RefTime>, clock: Clock): (time: Option<string>)
    ensures lastRefTime.None? ==> time == Some(Strval(clock.afterDecode))
    ensures time.None? <==> lastRefTime == Some(NotNumeric)
    ensures lastRefTime.Some? && lastRefTime.value.Millis? ==>
      time == Some(Strval(IntvalQuotient(lastRefTime.value.ms, 1000)))
  {
    match lastRefTime
    case None => Some(Strval(clock.afterDecode))
    case Some(Millis(ms)) => Some(Strval(IntvalQuotient(ms, 1000)))
    case Some(NotNumeric) => None
  }

  /** `sendTo($clientInfo, $response)` */
  function SendTo(peer: Peer, response: Response): (d: Datagram)
    ensures d.to == peer && d.response == response
  {
    Datagram(peer, response)
  }

  predicate IsPush(kind: string) {
    kind == "dom" || kind == "service"
  }

  function ContentName(content: Content): Option<string> {
    match content
    case Message(name) => name
    case _ => None
  }

  /** `onPacket($server, $data, $clientInfo)` */
  function OnPacket(
    packet: Packet, peer: Peer, clock: Clock, settings: Settings,
    client: Client.State, registry: Client.Registry, fetch: nat): (h: Handled)
    ensures h.reply.Some? ==> h.reply.value.to == peer && Complete(h.reply.value.response) && h.reply.value.response.data == ""
    ensures h.sync.Some? ==> h.reply.Some? && h.reply.value.response.ackType == Some(PushAck) && |h.sync.value| == 1
    ensures h.reply.None? ==> h.sync.None? && packet.Decoded? && packet.fields.kind.Some?
    ensures h.reply.None? ==>
      || packet.fields.lastRefTime == Some(NotNumeric)
      || (&& IsPush(packet.fields.kind.value)
          && (|| packet.fields.content.Rejected?
              || UpInstance(ContentName(packet.fields.content), settings, client, registry, fetch) == Threw))
  {
    var response := NewResponse().SetLastRefTime(Strval(clock.atReceipt));
    if packet.Undecodable? || packet.fields.kind.None? then
      Handled(Some(SendTo(peer, response.SetType(UnknownAck))), None)
    else
      var fields := packet.fields;
      match ReplyTime(fields.lastRefTime, clock)
      case None => Handled(None, None)
      case Some(time) =>
        var timed := response.SetLastRefTime(time);
        if IsPush(fields.kind.value) then
          if fields.content.Rejected? then Handled(None, None)
          else match UpInstance(ContentName(fields.content), settings, client, registry, fetch)
          case Threw => Handled(None, None)
          case NoSync => Handled(Some(SendTo(peer, timed.SetType(PushAck))), None)
          case Sync(batch) => Handled(Some(SendTo(peer, timed.SetType(PushAck))), Some(batch))
        else if fields.kind.value == "dump" then
          Handled(Some(SendTo(peer, timed.SetType(DumpAck))), None)
        else
          Handled(Some(SendTo(peer, timed.SetType(UnknownAck))), None)
  }

  // ---------------------------------------------------------------------------
  // Properties of onPacket

  /** A packet that is not an array, or has no `type`, is acknowledged as unknown with the receipt time. */
  lemma UntypedPacketUnknown(packet: Packet, peer: Peer, clock: Clock, settings: Settings,
                             client: Client.State, registry: Client.Registry, fetch: nat)
    requires packet.Undecodable? || packet.fields.kind.None?
    ensures OnPacket(packet, peer, clock, settings, client, registry, fetch)
      == Handled(Some(Datagram(peer, Response(Some(UnknownAck), Some(Strval(clock.atReceipt)), ""))), None)
  {
  }

  /** A `dump` packet is acknowledged as a dump and syncs nothing. */
  lemma DumpAcknowledged(fields: Fields, peer: Peer, clock: Clock, settings: Settings,
                         client: Client.State, registry: Client.Registry, fetch: nat)
    requires fields.kind == Some("dump") && fields.lastRefTime != Some(NotNumeric)
    ensures var h := OnPacket(Decoded(fields), peer, clock, settings, client, registry, fetch);
      h.sync.None? && h.reply.Some? && h.reply.value.response.ackType == Some(DumpAck)
  {
  }

  /** A typed packet whose type is neither push nor dump is acknowledged as unknown and syncs nothing. */
  lemma OtherTypeUnknown(fields: Fields, peer: Peer, clock: Clock, settings: Settings,
                         client: Client.State, registry: Client.Registry, fetch: nat)
    requires fields.kind.Some? && !IsPush(fields.kind.value) && fields.kind.value != "dump"
    requires fields.lastRefTime != Some(NotNumeric)
    ensures var h := OnPacket(Decoded(fields), peer, clock, settings, client, registry, fetch);
      h.sync.None? && h.reply.Some? && h.reply.value.response.ackType == Some(UnknownAck)
  {
  }

  /**
   * The time in a reply to a typed packet reads back as the packet's
   * milliseconds in whole seconds, or as the clock when it had none.
   */
  lemma ReplyTimeReadsBack(fields: Fields, peer: Peer, clock: Clock, settings: Settings,
                           client: Client.State, registry: Client.Registry, fetch: nat)
    requires fields.kind.Some?
    requires OnPacket(Decoded(fields), peer, clock, settings, client, registry, fetch).reply.Some?
    ensures var time := OnPacket(Decoded(fields), peer, clock, settings, client, registry, fetch).reply.value.response.lastRefTime.value;
      && (fields.lastRefTime.None? ==> ParseInt(time) == Some(clock.afterDecode))
      && (fields.lastRefTime.Some? ==>
            && fields.lastRefTime.value.Millis?
            && var ms := fields.lastRefTime.value.ms;
               exists q :: (ParseInt(time) == Some(q) && (0 <= ms ==> q * 1000 <= ms < q * 1000 + 1000)
                 && (ms < 0 ==> q * 1000 - 1000 < ms <= q * 1000)))
  {
    match fields.lastRefTime
    case None =>
      StrvalRoundTrip(clock.afterDecode);
    case Some(t) =>
      var q := IntvalQuotient(t.ms, 1000);
      StrvalRoundTrip(q);
  }

  /** A `lastRefTime` the division rejects loses the reply and syncs nothing. */
  lemma NonNumericTimeDropsReply(fields: Fields, peer: Peer, clock: Clock, settings: Settings,
                                 client: Client.State, registry: Client.Registry, fetch: nat)
    requires fields.kind.Some? && fields.lastRefTime == Some(NotNumeric)
    ensures OnPacket(Decoded(fields), peer, clock, settings, client, registry, fetch) == Handled(None, None)
  {
  }

  /**
   * A push for `group@@service`, where `service` is a configured consumer with
   * a balancer and a namespace, syncs exactly that consumer's fresh
   * instances and is acknowledged.
   */
  lemma PushSyncsNamedService(
    group: string, c: Client.ConsumerConfig, fields: Fields, peer: Peer, clock: Clock, settings: Settings,
    client: Client.State, registry: Client.Registry, fetch: nat)
    requires !HasSeparator(group) && (|group| == 0 || group[|group| - 1] != '@')
    requires !HasSeparator(c.name) && !EmptyString(c.name)
    requires fields.kind.Some? && IsPush(fields.kind.value) && fields.lastRefTime != Some(NotNumeric)
    requires fields.content == Message(Some(group + "@@" + c.name))
    requires FirstConsumer(settings.consumers, c.name) == Some(c)
    requires !EmptyValue(c.loadBalancer) && !EmptyValue(c.namespaceId)
    requires settings.groupName.Some? && !NoDriver(settings.driver)
    ensures var h := OnPacket(Decoded(fields), peer, clock, settings, client, registry, fetch);
      && h.reply.Some? && h.reply.value.response.ackType == Some(PushAck)
      && h.sync == Some([Snapshot(c.name, c.loadBalancer.value,
           Client.GetNodesOneByListener(client, c.name, settings.groupName.value, c.namespaceId.value, c.loadBalancer.value, registry, fetch))])
  {
    GroupedNameNamesService(group, c.name);
  }

  /** Without `group_name` configured, a push that would sync throws instead, and no reply is sent. */
  lemma MissingGroupDropsReply(
    fields: Fields, peer: Peer, clock: Clock, settings: Settings,
    client: Client.State, registry: Client.Registry, fetch: nat)
    requires fields.kind.Some? && IsPush(fields.kind.value) && fields.lastRefTime != Some(NotNumeric)
    requires settings.groupName.None?
    requires UpInstance(ContentName(fields.content), settings.(groupName := Some("")), client, registry, fetch).Sync?
    ensures OnPacket(Decoded(fields), peer, clock, settings, client, registry, fetch) == Handled(None, None)
  {
  }

  /** Without `services.driver`, a push that would sync throws instead, and no reply is sent. */
  lemma MissingDriverDropsReply(
    fields: Fields, peer: Peer, clock: Clock, settings: Settings,
    client: Client.State, registry: Client.Registry, fetch: nat)
    requires fields.kind.Some? && IsPush(fields.kind.value) && fields.lastRefTime != Some(NotNumeric)
    requires NoDriver(settings.driver)
    requires UpInstance(ContentName(fields.content), settings.(driver := Some("nacos")), client, registry, fetch).Sync?
    ensures OnPacket(Decoded(fields), peer, clock, settings, client, registry, fetch) == Handled(None, None)
  {
  }

  /** A push whose `data` is itself an array makes `json_decode` throw, and no reply is sent. */
  lemma RejectedDataDropsReply(
    fields: Fields, peer: Peer, clock: Clock, settings: Settings,
    client: Client.State, registry: Client.Registry, fetch: nat)
    requires fields.kind.Some? && IsPush(fields.kind.value) && fields.content == Rejected
    ensures OnPacket(Decoded(fields), peer, clock, settings, client, registry, fetch) == Handled(None, None)
  {
  }

  /**
   * A push that `upInstance` handles without throwing is acknowledged with
   * the reply time, and syncs exactly the batch `upInstance` produced.
   */
  lemma PushAcknowledged(
    fields: Fields, peer: Peer, clock: Clock, settings: Settings,
    client: Client.State, registry: Client.Registry, fetch: nat)
    requires fields.kind.Some? && IsPush(fields.kind.value) && fields.lastRefTime != Some(NotNumeric)
    requires !fields.content.Rejected?
    requires UpInstance(ContentName(fields.content), settings, client, registry, fetch) != Threw
    ensures var h := OnPacket(Decoded(fields), peer, clock, settings, client, registry, fetch);
      var push := UpInstance(ContentName(fields.content), settings, client, registry, fetch);
      && h.reply == Some(Datagram(peer, Response(Some(PushAck), ReplyTime(fields.lastRefTime, clock), "")))
      && (h.sync.Some? <==> push.Sync?)
      && (push.Sync? ==> h.sync == Some(push.batch))
  {
  }

  /** A pushed name without `@@` is acknowledged but never synced. */
  lemma UngroupedPushNotSynced(
    name: string, fields: Fields, peer: Peer, clock: Clock, settings: Settings,
    client: Client.State, registry: Client.Registry, fetch: nat)
    requires fields.kind.Some? && IsPush(fields.kind.value) && fields.lastRefTime != Some(NotNumeric)
    requires fields.content == Message(Some(name)) && !HasSeparator(name)
    ensures var h := OnPacket(Decoded(fields), peer, clock, settings, client, registry, fetch);
      h.sync.None? && h.reply.Some? && h.reply.value.response.ackType == Some(PushAck)
  {
    UngroupedNameIgnored(name);
  }
}
