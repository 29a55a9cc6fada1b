/** `client_ip.py`: the client address behind a chain of trusted proxies. */
module ClientIp {
  import opened Options
  import opened Strings

  /** A parsed address: the IP version and the value of its bits. */
  datatype Address = Address(version: int, value: nat)

  /** All addresses of one version from `first` to `last`. */
  datatype Network = Network(version: int, first: nat, last: nat)

  /** `parse` stands for `ipaddress.ip_address`, `None` for its `ValueError`. */
  predicate InTrusted(ip: string, networks: seq<Network>, parse: string -> Option<Address>) {
    match parse(ip)
    case None => false
    case Some(a) =>
      exists i | 0 <= i < |networks| ::
        networks[i].version == a.version && networks[i].first <= a.value <= networks[i].last
  }

  /** The hops a header names, nearest to the server last. */
  function Hops(forwardedFor: string): seq<string> {
    StripNonBlank(Split(forwardedFor, ','))
  }

  function LastUntrusted(hops: seq<string>, networks: seq<Network>, parse: string -> Option<Address>): Option<string> {
    if hops == [] then None
    else
      var last := hops[|hops| - 1];
      if !InTrusted(last, networks, parse) then Some(last)
      else LastUntrusted(hops[..|hops| - 1], networks, parse)
  }

  function GetClientIp(peer: Option<string>, forwardedFor: Option<string>, networks: seq<Network>,
                       parse: string -> Option<Address>): Option<string>
  {
    if networks == [] || peer.None? || !InTrusted(peer.value, networks, parse) then peer
    else if forwardedFor.None? || forwardedFor.value == "" then peer
    else
      var hops := Hops(forwardedFor.value);
      match LastUntrusted(hops, networks, parse)
      case Some(client) => Some(client)
      case None => if hops != [] then Some(hops[0]) else peer
  }

  /** A peer that is not a trusted proxy is the client, whatever header it sends. */
  lemma {:induction false} UntrustedPeerDecides(peer: string, forwardedFor: Option<string>, networks: seq<Network>,
                                                parse: string -> Option<Address>)
    requires !InTrusted(peer, networks, parse)
    ensures GetClientIp(Some(peer), forwardedFor, networks, parse) == Some(peer)
  {
  }

  /** Without a header, or with an empty one, the client is the peer, if there is one; so it is without a peer. */
  lemma {:induction false} WithoutHeader(peer: Option<string>, forwardedFor: Option<string>, networks: seq<Network>,
                                         parse: string -> Option<Address>)
    requires peer == None || forwardedFor == None || forwardedFor == Some("")
    ensures GetClientIp(peer, forwardedFor, networks, parse) == peer
  {
  }

  /** A trusted address is one that parses and lies in a network of its own version. */
  lemma {:induction false} TrustedIff(ip: string, networks: seq<Network>, parse: string -> Option<Address>)
    ensures InTrusted(ip, networks, parse)
            <==> parse(ip).Some?
                 && exists network | network in networks ::
                      && network.version == parse(ip).value.version
                      && network.first <= parse(ip).value.value && parse(ip).value.value <= network.last
  {
    if network :| network in networks && parse(ip).Some? && network.version == parse(ip).value.version
                  && network.first <= parse(ip).value.value && parse(ip).value.value <= network.last {
      var i :| 0 <= i < |networks| && networks[i] == network;
      assert networks[i].version == parse(ip).value.version;
    }
  }

  ghost predicate AllTrustedFrom(hops: seq<string>, start: nat, networks: seq<Network>,
                                 parse: string -> Option<Address>)
  {
    forall j | start <= j < |hops| :: InTrusted(hops[j], networks, parse)
  }

  lemma {:induction false} LastUntrustedAt(hops: seq<string>, i: nat, networks: seq<Network>,
                                           parse: string -> Option<Address>)
    requires i < |hops| && !InTrusted(hops[i], networks, parse) && AllTrustedFrom(hops, i + 1, networks, parse)
    ensures LastUntrusted(hops, networks, parse) == Some(hops[i])
  {
    if i < |hops| - 1 {
      LastUntrustedAt(hops[..|hops| - 1], i, networks, parse);
    }
  }

  lemma {:induction false} NoneUntrusted(hops: seq<string>, networks: seq<Network>, parse: string -> Option<Address>)
    requires AllTrustedFrom(hops, 0, networks, parse)
    ensures LastUntrusted(hops, networks, parse) == None
  {
    if hops != [] {
      NoneUntrusted(hops[..|hops| - 1], networks, parse);
    }
  }

  lemma {:induction false} NoHops()
    ensures Hops("") == []
  {
    assert Strip("") == "" && StripNonBlank([""][1..]) == [];
  }

  /** Behind a trusted peer the client is the rightmost hop that is not a trusted proxy. */
  lemma {:induction false} RightmostUntrustedHop(peer: string, header: string, i: nat, networks: seq<Network>,
                                                 parse: string -> Option<Address>)
    requires InTrusted(peer, networks, parse)
    requires i < |Hops(header)| && !InTrusted(Hops(header)[i], networks, parse)
    requires AllTrustedFrom(Hops(header), i + 1, networks, parse)
    ensures GetClientIp(Some(peer), Some(header), networks, parse) == Some(Hops(header)[i])
  {
    NoHops();
    LastUntrustedAt(Hops(header), i, networks, parse);
  }

  /** A chain of trusted proxies only: the farthest hop, or the peer when the header names none. */
  lemma {:induction false} OnlyTrustedHops(peer: string, header: string, networks: seq<Network>,
                                           parse: string -> Option<Address>)
    requires InTrusted(peer, networks, parse) && AllTrustedFrom(Hops(header), 0, networks, parse)
    ensures var hops := Hops(header);
            GetClientIp(Some(peer), Some(header), networks, parse) == Some(if hops == [] then peer else hops[0])
  {
    NoHops();
    NoneUntrusted(Hops(header), networks, parse);
  }

  lemma {:induction false} LastUntrustedConcat(a: seq<string>, b: seq<string>, networks: seq<Network>,
                                               parse: string -> Option<Address>)
    requires LastUntrusted(b, networks, parse).Some?
    ensures LastUntrusted(a + b, networks, parse) == LastUntrusted(b, networks, parse)
  {
    if InTrusted(b[|b| - 1], networks, parse) {
      assert (a + b)[..|a + b| - 1] == a + b[..|b| - 1];
      LastUntrustedConcat(a, b[..|b| - 1], networks, parse);
    }
  }

  /** Text that a client puts in front of the header cannot change the result once the header names an untrusted hop. */
  lemma {:induction false} PrependingIsIgnored(peer: Option<string>, text: string, header: string,
                                               networks: seq<Network>, parse: string -> Option<Address>)
    requires exists hop :: hop in Hops(header) && !InTrusted(hop, networks, parse)
    ensures GetClientIp(peer, Some(text + "," + header), networks, parse)
         == GetClientIp(peer, Some(header), networks, parse)
  {
    NoHops();
    SplitConcat(text, ',', header);
    StripNonBlankConcat(Split(text, ','), Split(header, ','));
    var hops := Hops(header);
    var hop :| hop in hops && !InTrusted(hop, networks, parse);
    HasUntrusted(hops, hop, networks, parse);
    LastUntrustedConcat(Hops(text), hops, networks, parse);
  }

  lemma {:induction false} HasUntrusted(hops: seq<string>, hop: string, networks: seq<Network>,
                                        parse: string -> Option<Address>)
    requires hop in hops && !InTrusted(hop, networks, parse)
    ensures LastUntrusted(hops, networks, parse).Some?
  {
    if hop != hops[|hops| - 1] {
      HasUntrusted(hops[..|hops| - 1], hop, networks, parse);
    }
  }
}
