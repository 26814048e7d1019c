/** The platform-fee exporter: one request per service of a fixed list, then one row
    per returned fee item, collected into `data_list` before anything is written. */
module Fees {
  import opened PyJson
  import opened Http

  /** The services asked, in this order. */
  const SERVICES: seq<string> := ["horizon", "adastra", "openhatch", "p2p", "virgo"]

  /** The answer the script receives for each service. */
  type Net = string -> Response

  /** One element of `data_list`; a value the item lacks reads as None (JNull). */
  datatype FeeRow = FeeRow(network: Json, app: string, contractAddress: Json, tokenSymbol: Json, value: Json)

  /** `fetch_data(service)`: the `items` value of a 200 answer, `[]` for any other
      status, or None when it raises (the body is not JSON, or it or its `data` is
      not a dict). */
  function FetchData(resp: Response): (r: Option<Json>)
    ensures resp.status != 200 ==> r == Some(JArr([]))
    ensures resp.status == 200 && resp.body.Unparsable? ==> r.None?
    ensures r.None? ==> resp.status == 200
  {
    if resp.status != 200 then Some(JArr([]))
    else match resp.body
      case Unparsable => None
      case Parsed(j) =>
        if !j.JObj? then None
        else match Get(j.fields, "data", JObj([]))
          case JObj(d) => Some(Get(d, "items", JArr([])))
          case _ => None
  }

  /** The row of one item, or None when the item is not a dict (`.get` raises). A
      missing contract becomes the string "null"; the other missing values are None. */
  function RowOf(service: string, item: Json): Option<FeeRow> {
    if !item.JObj? then None
    else
      var f := item.fields;
      Some(FeeRow(Get(f, "network", JNull), service, Get(f, "contract", JStr("null")),
                  Get(f, "symbol", JNull), Get(f, "value", JNull)))
  }

  /** `RowOf` for one service, as a function of the item. */
  function RowMaker(service: string): Json -> Option<FeeRow> {
    item => RowOf(service, item)
  }

  /** The items `for item in data` visits for one answer, or None when fetching or
      iterating raises. */
  function ItemsOf(resp: Response): Option<seq<Json>> {
    match FetchData(resp)
    case Some(items) => Iter(items)
    case None => None
  }

  /** The rows one service adds, or None when the script raises on its answer. */
  function ServiceRows(service: string, resp: Response): Option<seq<FeeRow>> {
    match ItemsOf(resp)
    case Some(es) => TryMap(es, RowMaker(service))
    case None => None
  }

  /** `data_list` after the loop over `services`, or None when the script raises. */
  function AllRows(services: seq<string>, net: Net): Option<seq<FeeRow>>
    decreases |services|
  {
    if services == [] then Some([])
    else
      var last := services[|services| - 1];
      match (AllRows(services[..|services| - 1], net), ServiceRows(last, net(last)))
      case (Some(before), Some(rows)) => Some(before + rows)
      case _ => None
  }

  /** The rows of a run that does not raise are the rows of the services before the
      last one, then the last one's. */
  lemma AllRowsSnoc(services: seq<string>, net: Net)
    requires services != [] && AllRows(services, net).Some?
    ensures AllRows(services[..|services| - 1], net).Some?
    ensures ServiceRows(services[|services| - 1], net(services[|services| - 1])).Some?
    ensures AllRows(services, net).value ==
      AllRows(services[..|services| - 1], net).value + ServiceRows(services[|services| - 1], net(services[|services| - 1])).value
  {
  }

  /** A service whose answer is not 200 adds no row. */
  lemma NonOkAddsNothing(service: string, resp: Response)
    requires resp.status != 200
    ensures ServiceRows(service, resp) == Some([])
  {
  }

  /** A service adds one row per item, in item order, each naming the service. */
  lemma ServiceRowsInOrder(service: string, resp: Response)
    requires ServiceRows(service, resp).Some?
    ensures ItemsOf(resp).Some?
    ensures |ServiceRows(service, resp).value| == |ItemsOf(resp).value|
    ensures forall i :: 0 <= i < |ItemsOf(resp).value| ==>
      RowOf(service, ItemsOf(resp).value[i]) == Some(ServiceRows(service, resp).value[i]) &&
      ServiceRows(service, resp).value[i].app == service
  {
    TryMapAll(ItemsOf(resp).value, RowMaker(service));
  }

  /** An item without a contract gets the string "null"; an explicit null contract
      stays None, like a missing network, symbol or value. */
  lemma ContractDefault(service: string)
    ensures RowOf(service, JObj([])) == Some(FeeRow(JNull, service, JStr("null"), JNull, JNull))
    ensures RowOf(service, JObj([("contract", JNull)])).value.contractAddress == JNull
  {
    GetHead("contract", JNull, [], "contract", JStr("null"));
  }

  /** The number of items the answers hold, over the services that answer with a list
      (or another iterable). */
  function ItemCount(services: seq<string>, net: Net): nat
    decreases |services|
  {
    if services == [] then 0
    else
      var last := services[|services| - 1];
      ItemCount(services[..|services| - 1], net) +
      match ItemsOf(net(last)) case Some(es) => |es| case None => 0
  }

  /** Exactly one row per returned item, with no dedupe. */
  lemma {:induction false} OneRowPerItem(services: seq<string>, net: Net)
    requires AllRows(services, net).Some?
    ensures |AllRows(services, net).value| == ItemCount(services, net)
    decreases |services|
  {
    if services != [] {
      var last := services[|services| - 1];
      OneRowPerItem(services[..|services| - 1], net);
      ServiceRowsInOrder(last, net(last));
    }
  }

  /** The rows of `rows` that came from `app`, in order. */
  function RowsFor(rows: seq<FeeRow>, app: string): seq<FeeRow>
    decreases |rows|
  {
    if rows == [] then []
    else RowsFor(rows[..|rows| - 1], app) + if rows[|rows| - 1].app == app then [rows[|rows| - 1]] else []
  }

  lemma {:induction false} RowsForConcat(a: seq<FeeRow>, b: seq<FeeRow>, app: string)
    ensures RowsFor(a + b, app) == RowsFor(a, app) + RowsFor(b, app)
    decreases |b|
  {
    if b == [] {
      assert a + b == a;
    } else {
      var init := b[..|b| - 1];
      assert (a + b)[..|a + b| - 1] == a + init;
      RowsForConcat(a, init, app);
    }
  }

  /** Filtering rows that all carry one app keeps them all or drops them all. */
  lemma {:induction false} RowsForUniform(rows: seq<FeeRow>, service: string, app: string)
    requires forall i :: 0 <= i < |rows| ==> rows[i].app == service
    ensures RowsFor(rows, app) == if service == app then rows else []
    decreases |rows|
  {
    if rows != [] {
      RowsForUniform(rows[..|rows| - 1], service, app);
      assert rows == rows[..|rows| - 1] + [rows[|rows| - 1]];
    }
  }

  /** Every row names one of the services asked. */
  lemma {:induction false} AppsAsked(services: seq<string>, net: Net)
    requires AllRows(services, net).Some?
    ensures forall i :: 0 <= i < |AllRows(services, net).value| ==> AllRows(services, net).value[i].app in services
    decreases |services|
  {
    if services != [] {
      var n := |services|;
      var init := services[..n - 1];
      var last := services[n - 1];
      AppsAsked(init, net);
      ServiceRowsInOrder(last, net(last));
      var before := AllRows(init, net).value;
      var all := AllRows(services, net).value;
      forall i | 0 <= i < |all| ensures all[i].app in services {
        if i < |before| {
          assert all[i] == before[i];
          assert before[i].app in init;
        } else {
          assert all[i] == ServiceRows(last, net(last)).value[i - |before|];
        }
      }
    }
  }

  /** No row names a service that was not asked. */
  lemma {:induction false} RowsForAbsent(services: seq<string>, net: Net, s: string)
    requires AllRows(services, net).Some? && s !in services
    ensures RowsFor(AllRows(services, net).value, s) == []
    decreases |services|
  {
    if services != [] {
      var init := services[..|services| - 1];
      var last := services[|services| - 1];
      AllRowsSnoc(services, net);
      ServiceRowsInOrder(last, net(last));
      assert s !in init by {
        assert services == init + [last];
      }
      RowsForAbsent(init, net, s);
      RowsForSplit(AllRows(init, net).value, ServiceRows(last, net(last)).value, last, s);
    }
  }

  /** With distinct services, the rows that name a service are exactly the rows its
      own answer yields, in item order: rows are grouped by service. */
  lemma {:induction false} RowsByService(services: seq<string>, net: Net, s: string)
    requires forall i, j :: 0 <= i < j < |services| ==> services[i] != services[j]
    requires AllRows(services, net).Some? && s in services
    ensures ServiceRows(s, net(s)).Some? && RowsFor(AllRows(services, net).value, s) == ServiceRows(s, net(s)).value
    decreases |services|
  {
    var n := |services|;
    var init := services[..n - 1];
    var last := services[n - 1];
    AllRowsSnoc(services, net);
    ServiceRowsInOrder(last, net(last));
    RowsForSplit(AllRows(init, net).value, ServiceRows(last, net(last)).value, last, s);
    if s == last {
      LastNotInInit(services, init);
      RowsForAbsent(init, net, s);
    } else {
      InInit(services, s);
      DistinctInit(services, init);
      RowsByService(init, net, s);
    }
  }

  /** The last element of a sequence without repeats is not among the others. */
  lemma LastNotInInit<T>(s: seq<T>, init: seq<T>)
    requires s != [] && init == s[..|s| - 1] && forall i, j :: 0 <= i < j < |s| ==> s[i] != s[j]
    ensures s[|s| - 1] !in init
  {
    forall k | 0 <= k < |init| ensures init[k] != s[|s| - 1] {
      assert init[k] == s[k];
    }
  }

  /** Dropping the last element of a sequence without repeats leaves one without
      repeats. */
  lemma DistinctInit<T>(s: seq<T>, init: seq<T>)
    requires s != [] && init == s[..|s| - 1] && forall i, j :: 0 <= i < j < |s| ==> s[i] != s[j]
    ensures forall i, j :: 0 <= i < j < |init| ==> init[i] != init[j]
  {
  }

  /** An element other than the last is in the rest. */
  lemma InInit<T>(s: seq<T>, x: T)
    requires x in s && x != s[|s| - 1]
    ensures x in s[..|s| - 1]
  {
    var k :| 0 <= k < |s| && s[k] == x;
    assert s[..|s| - 1][k] == x;
  }

  /** The rows of one more service, filtered. */
  lemma RowsForSplit(before: seq<FeeRow>, mine: seq<FeeRow>, service: string, app: string)
    requires forall i :: 0 <= i < |mine| ==> mine[i].app == service
    ensures RowsFor(before + mine, app) == RowsFor(before, app) + if service == app then mine else []
  {
    RowsForConcat(before, mine, app);
    RowsForUniform(mine, service, app);
  }

  /** The services of the script are distinct. */
  lemma ServicesDistinct()
    ensures forall i, j :: 0 <= i < j < |SERVICES| ==> SERVICES[i] != SERVICES[j]
  {
  }

  /** Raising on some service raises for the whole run. */
  lemma {:induction false} AllRowsStops(services: seq<string>, net: Net, k: nat)
    requires k <= |services| && AllRows(services[..k], net).None?
    ensures AllRows(services, net).None?
    decreases |services|
  {
    if k < |services| {
      assert services[..|services| - 1][..k] == services[..k];
      AllRowsStops(services[..|services| - 1], net, k);
    } else {
      assert services[..k] == services;
    }
  }

  /** One more service extends the rows of the ones before it, or raises. */
  lemma AllRowsStep(services: seq<string>, net: Net, k: nat)
    requires k < |services| && AllRows(services[..k], net).Some?
    ensures ServiceRows(services[k], net(services[k])).None? ==> AllRows(services[..k + 1], net).None?
    ensures ServiceRows(services[k], net(services[k])).Some? ==>
      AllRows(services[..k + 1], net) ==
        Some(AllRows(services[..k], net).value + ServiceRows(services[k], net(services[k])).value)
  {
    assert services[..k + 1][..k] == services[..k];
  }

  /** The module-level `data_list`. */
  class FeeList {
    var dataList: seq<FeeRow>

    constructor ()
      ensures dataList == []
    {
      dataList := [];
    }

    /** The inner loop over one service's items: it appends their rows, or reports that
        fetching or building a row raised. */
    method AddService(service: string, resp: Response) returns (ok: bool)
      modifies this
      ensures ok <==> ServiceRows(service, resp).Some?
      ensures ok ==> dataList == old(dataList) + ServiceRows(service, resp).value
    {
      var items := ItemsOf(resp);
      if items.None? {
        return false;
      }
      var es := items.value;
      var j := 0;
      while j < |es|
        invariant 0 <= j <= |es|
        invariant TryMap(es[..j], RowMaker(service)).Some?
        invariant dataList == old(dataList) + TryMap(es[..j], RowMaker(service)).value
      {
        assert es[..j + 1][..j] == es[..j];
        var row := RowOf(service, es[j]);
        if row.None? {
          TryMapStops(es, RowMaker(service), j + 1);
          return false;
        }
        dataList := dataList + [row.value];
        j := j + 1;
      }
      assert es[..j] == es;
      return true;
    }

    /** The loop over `SERVICES` and their items. It ends with the rows of every
        service appended, or reports that the script raised. */
    method Collect(net: Net) returns (raised: bool)
      modifies this
      ensures raised <==> AllRows(SERVICES, net).None?
      ensures !raised ==> dataList == old(dataList) + AllRows(SERVICES, net).value
    {
      var k := 0;
      while k < |SERVICES|
        invariant 0 <= k <= |SERVICES|
        invariant AllRows(SERVICES[..k], net).Some?
        invariant dataList == old(dataList) + AllRows(SERVICES[..k], net).value
      {
        var service := SERVICES[k];
        var ok := AddService(service, net(service));
        AllRowsStep(SERVICES, net, k);
        if ok {
          AppendAssoc(old(dataList), AllRows(SERVICES[..k], net).value, ServiceRows(service, net(service)).value);
        }
        if !ok {
          AllRowsStops(SERVICES, net, k + 1);
          return true;
        }
        k := k + 1;
      }
      assert SERVICES[..k] == SERVICES;
      return false;
    }
  }
}
