/**
 The handler's side of the hot swap: the installed lookup, updated in place.  Each method body
 runs under the write lock (LocateIP under the read lock); its effect is the single transition
 GeoipProtocol proves such a section to be.
 */
module GeoipHandler {
  import opened Wrappers
  import opened GeoipProtocol

  // An opened database: which handle it is, what it was opened on, how often it was closed, and
  // whether closing it reports an error.
  class Lookup {
    const id: Handle
    const data: Bytes
    const closeFails: bool
    var closes: nat

    constructor (id: Handle, data: Bytes, closeFails: bool)
      ensures this.id == id && this.data == data && this.closeFails == closeFails && closes == 0
    {
      this.id, this.data, this.closeFails, closes := id, data, closeFails, 0;
    }

    method Close() returns (failed: bool)
      modifies this
      ensures closes == old(closes) + 1
      ensures failed == closeFails
    {
      closes := closes + 1;
      failed := closeFails;
    }

    // Reading after Close would touch unmapped memory.
    method Locate(ip: string, resolve: (Bytes, string) -> string) returns (location: string)
      requires closes == 0
      ensures location == resolve(data, ip)
    {
      location := resolve(data, ip);
    }
  }

  ghost predicate DistinctHandles(all: set<Lookup>) {
    forall l, l' :: l in all && l' in all && l.id == l'.id ==> l == l'
  }

  class Handler {
    var geoip: Lookup?
    var geoipClosed: bool

    ghost predicate Valid()
      reads this, geoip
    {
      && (geoip != null ==> geoip.closes == 0)
      && (geoipClosed ==> geoip == null)
    }

    // The protocol's view of the handler and of every lookup opened so far.
    ghost function View(all: set<Lookup>): Shared
      requires DistinctHandles(all)
      reads this, geoip, all
    {
      Shared(if geoip == null then None else Some(geoip.id), geoipClosed,
             map l | l in all :: l.id := l.closes)
    }

    constructor ()
      ensures Valid() && geoip == null && !geoipClosed
    {
      geoip, geoipClosed := null, false;
    }

    method GeoipEnabled() returns (on: bool)
      ensures on <==> geoip != null
    {
      on := geoip != null;
    }

    method LocateIP(ip: string, resolve: (Bytes, string) -> string) returns (location: string)
      requires Valid()
      ensures location == if geoip == null then "" else resolve(geoip.data, ip)
    {
      if geoip == null {
        return "";
      }
      location := geoip.Locate(ip, resolve);
    }

    // Installs l and closes what it replaces; after CloseGeoIP it closes l instead.
    method SetGeoIP(l: Lookup?, ghost all: set<Lookup>)
      requires Valid() && DistinctHandles(all)
      requires l != null ==> l in all && l.closes == 0
      requires geoip != null ==> geoip in all
      modifies this, l, geoip
      ensures Valid()
      ensures l != null ==> View(all) == SetEffect(old(View(all)), l.id)
      ensures geoipClosed == old(geoipClosed)
      ensures geoip == if geoipClosed then null else l
      ensures l != null ==> l.closes == if geoipClosed then 1 else 0
      ensures old(geoip) != null && old(geoip) != l ==> old(geoip).closes == 1
    {
      if geoipClosed {
        if l != null {
          var _ := l.Close();
        }
        return;
      }
      var was := geoip;
      geoip := l;
      if was != null && was != l {
        var _ := was.Close();
      }
    }

    // Closes the installed lookup and makes every later SetGeoIP close its argument.
    method CloseGeoIP(ghost all: set<Lookup>) returns (failed: bool)
      requires Valid() && DistinctHandles(all)
      requires geoip != null ==> geoip in all
      modifies this, geoip
      ensures Valid() && geoipClosed && geoip == null
      ensures View(all) == CloseEffect(old(View(all)))
      ensures old(geoip) != null ==> old(geoip).closes == 1
      ensures failed <==> old(geoip) != null && old(geoip).closeFails
    {
      geoipClosed := true;
      if geoip == null {
        return false;
      }
      failed := geoip.Close();
      geoip := null;
    }
  }
}
