/** The inventory views of core/inventoryviews.py: the list's filters, its
    ordering whitelist and low-stock count, the dashboard's low-stock and
    attention lists, the AJAX quantity update and the delete guards. The
    `Inventory` model is not part of the repository's sources: `Item`
    carries the fields the views read, with the price as a whole number. */
module Inventory {
  import opened Common
  import opened Sorting

  datatype Item = Item(
    id: nat,
    name: string,
    description: string,
    brand: string,
    model: string,
    location: string,
    assembly: nat,
    acquiredFrom: string,
    status: string,
    condition: string,
    quantity: int,
    totalPrice: int,
    createdAt: nat)

  // ---------------------------------------------------------------------------
  // inventory_list
  // ---------------------------------------------------------------------------

  /** The `order_by` values the list accepts. */
  const ORDER_KEYS: seq<string> := ["name", "quantity", "total_price", "-total_price", "created_at", "-created_at"]

  /** `request.GET.get("order_by", "name")`, kept only when whitelisted. */
  function OrderKey(orderBy: Option<string>): (key: string)
    ensures key in ORDER_KEYS
    ensures orderBy.Some? && orderBy.value in ORDER_KEYS ==> key == orderBy.value
    ensures orderBy.None? || orderBy.value !in ORDER_KEYS ==> key == "name"
  {
    if orderBy.Some? && orderBy.value in ORDER_KEYS then orderBy.value else "name"
  }

  /** `a` may come before `b` under `order_by(key)`; a leading "-" reverses. */
  predicate ItemLeq(key: string, a: Item, b: Item) {
    if key == "quantity" then a.quantity <= b.quantity
    else if key == "total_price" then a.totalPrice <= b.totalPrice
    else if key == "-total_price" then b.totalPrice <= a.totalPrice
    else if key == "created_at" then a.createdAt <= b.createdAt
    else if key == "-created_at" then b.createdAt <= a.createdAt
    else LexLeq(a.name, b.name)
  }

  function ByOrder(key: string): (Item, Item) -> bool {
    (a: Item, b: Item) => ItemLeq(key, a, b)
  }

  lemma {:induction false} ByOrderIsTotalPreorder(key: string)
    ensures TotalPreorder(ByOrder(key))
  {
    var leq := ByOrder(key);
    forall a: Item, b: Item
      ensures leq(a, b) || leq(b, a)
    {
      LexLeqTotal(a.name, b.name);
    }
    forall a: Item, b: Item, c: Item | leq(a, b) && leq(b, c)
      ensures leq(a, c)
    {
      if key !in ["quantity", "total_price", "-total_price", "created_at", "-created_at"] {
        LexLeqTransitive(a.name, b.name, c.name);
      }
    }
  }

  /** The GET parameters of the list; "" stands for an absent one. */
  datatype InventoryQuery = InventoryQuery(search: string, status: string, condition: string, assembly: string,
                                           orderBy: Option<string>)

  /** The `search` filter: any of the text fields, or the assembly's name, contains the text. */
  predicate ItemSearchMatches(assemblyNames: map<nat, string>, i: Item, text: string) {
    || IContains(i.name, text) || IContains(i.description, text) || IContains(i.brand, text)
    || IContains(i.model, text) || IContains(i.location, text) || IContains(i.acquiredFrom, text)
    || (i.assembly in assemblyNames && IContains(assemblyNames[i.assembly], text))
  }

  /** One listed item, pointwise: it passes each given filter. */
  predicate ItemListed(assemblyNames: map<nat, string>, q: InventoryQuery, assembly: Option<int>, i: Item) {
    && (q.search != "" ==> ItemSearchMatches(assemblyNames, i, q.search))
    && (q.status != "" ==> i.status == q.status)
    && (q.condition != "" ==> i.condition == q.condition)
    && (assembly.Some? ==> i.assembly == assembly.value)
  }

  function ItemMatches(items: seq<Item>, assemblyNames: map<nat, string>, q: InventoryQuery, assembly: Option<int>): (r: seq<Item>)
    ensures forall i :: i in r <==> i in items && ItemListed(assemblyNames, q, assembly, i)
  {
    var s0 := if q.search != "" then Where(items, (i: Item) => ItemSearchMatches(assemblyNames, i, q.search)) else items;
    var s1 := if q.status != "" then Where(s0, (i: Item) => i.status == q.status) else s0;
    var s2 := if q.condition != "" then Where(s1, (i: Item) => i.condition == q.condition) else s1;
    if assembly.Some? then Where(s2, (i: Item) => i.assembly == assembly.value) else s2
  }

  /** `inventory_list`'s queryset: filtered, then ordered by the accepted key.
      `None` when the assembly parameter is not an integer (the query raises). */
  function InventoryList(items: seq<Item>, assemblyNames: map<nat, string>, q: InventoryQuery): Option<seq<Item>> {
    var assembly := if q.assembly == "" then Some(None) else if PyInt(q.assembly).Some? then Some(PyInt(q.assembly)) else None;
    if assembly.None? then None
    else Some(Sort(ItemMatches(items, assemblyNames, q, assembly.value), ByOrder(OrderKey(q.orderBy))))
  }

  lemma {:induction false} SortedItems(s: seq<Item>, key: string)
    ensures SortedBy(Sort(s, ByOrder(key)), ByOrder(key))
    ensures forall i :: i in Sort(s, ByOrder(key)) <==> i in s
    ensures |Sort(s, ByOrder(key))| == |s|
  {
    ByOrderIsTotalPreorder(key);
    SortSorted(s, ByOrder(key));
    assert |multiset(Sort(s, ByOrder(key)))| == |multiset(s)|;
    assert forall i :: i in Sort(s, ByOrder(key)) <==> i in multiset(Sort(s, ByOrder(key)));
    assert forall i :: i in s <==> i in multiset(s);
  }

  /** The list holds exactly the items passing the given filters, ordered by
      the requested key when it is whitelisted and by name otherwise. */
  lemma {:induction false} InventoryListSelects(items: seq<Item>, assemblyNames: map<nat, string>, q: InventoryQuery)
    ensures InventoryList(items, assemblyNames, q).None? <==> q.assembly != "" && PyInt(q.assembly).None?
    ensures var r := InventoryList(items, assemblyNames, q);
            var assembly := if q.assembly == "" then None else PyInt(q.assembly);
            r.Some? ==>
              && SortedBy(r.value, ByOrder(OrderKey(q.orderBy)))
              && forall i :: i in r.value <==> i in items && ItemListed(assemblyNames, q, assembly, i)
  {
    var assembly := if q.assembly == "" then None else PyInt(q.assembly);
    if q.assembly == "" || PyInt(q.assembly).Some? {
      SortedItems(ItemMatches(items, assemblyNames, q, assembly), OrderKey(q.orderBy));
    }
  }

  /** An unknown `order_by` lists in name order. */
  lemma {:induction false} UnknownOrderIsByName(items: seq<Item>, assemblyNames: map<nat, string>, q: InventoryQuery)
    requires q.orderBy.Some? && q.orderBy.value !in ORDER_KEYS
    requires InventoryList(items, assemblyNames, q).Some?
    ensures forall j, k :: 0 <= j < k < |InventoryList(items, assemblyNames, q).value| ==>
              LexLeq(InventoryList(items, assemblyNames, q).value[j].name, InventoryList(items, assemblyNames, q).value[k].name)
  {
    InventoryListSelects(items, assemblyNames, q);
  }

  /** `filter(quantity__lt=0)`: the items of negative quantity, in their order. */
  function LowStock(items: seq<Item>): (r: seq<Item>)
    ensures |r| <= |items|
    ensures forall i :: i in r <==> i in items && i.quantity < 0
  {
    Where(items, IsLowStock)
  }

  predicate IsLowStock(i: Item) {
    i.quantity < 0
  }

  /** The list's `low_stock_count` is the number of negative-quantity items
      among the filtered ones, whatever order was asked for. */
  lemma {:induction false} LowStockCountIgnoresOrder(items: seq<Item>, assemblyNames: map<nat, string>, q: InventoryQuery)
    requires InventoryList(items, assemblyNames, q).Some?
    ensures var assembly := if q.assembly == "" then None else PyInt(q.assembly);
            |LowStock(InventoryList(items, assemblyNames, q).value)| == |LowStock(ItemMatches(items, assemblyNames, q, assembly))|
  {
    var assembly := if q.assembly == "" then None else PyInt(q.assembly);
    var key := OrderKey(q.orderBy);
    var matches := ItemMatches(items, assemblyNames, q, assembly);
    ByOrderIsTotalPreorder(key);
    SortSorted(matches, ByOrder(key));
    WherePermutation(Sort(matches, ByOrder(key)), matches, IsLowStock);
  }

  // ---------------------------------------------------------------------------
  // inventory_dashboard
  // ---------------------------------------------------------------------------

  /** `queryset[:n]`. */
  function FirstN<T>(s: seq<T>, n: nat): (r: seq<T>)
    ensures |r| <= n
    ensures |s| <= n ==> r == s
    ensures |s| > n ==> |r| == n && r == s[..n]
  {
    if |s| <= n then s else s[..n]
  }

  const DASHBOARD_LIMIT: nat := 10
  const ATTENTION_CONDITIONS: set<string> := {"fair", "poor", "broken"}
  const ATTENTION_STATUSES: set<string> := {"maintenance", "lost"}

  /** An item needing attention: a worn or broken condition, or under maintenance or lost. */
  predicate NeedsAttention(i: Item) {
    i.condition in ATTENTION_CONDITIONS || i.status in ATTENTION_STATUSES
  }

  function AttentionItems(items: seq<Item>): seq<Item> {
    FirstN(Where(items, NeedsAttention), DASHBOARD_LIMIT)
  }

  function LowStockItems(items: seq<Item>): seq<Item> {
    FirstN(LowStock(items), DASHBOARD_LIMIT)
  }

  /** The first `n` rows of a filter come from the input and satisfy it; all
      of them are shown when there are no more than `n`. */
  lemma {:induction false} FirstNOfWhere(items: seq<Item>, p: Item -> bool, n: nat)
    ensures |FirstN(Where(items, p), n)| <= n
    ensures forall i :: i in FirstN(Where(items, p), n) ==> i in items && p(i)
    ensures |Where(items, p)| <= n ==> forall i :: i in items && p(i) ==> i in FirstN(Where(items, p), n)
  {
    var all := Where(items, p);
    if |all| > n {
      forall i | i in all[..n]
        ensures i in all
      {
        var k :| 0 <= k < n && all[..n][k] == i;
        assert all[k] == i;
      }
    }
  }

  /** The dashboard shows at most ten attention items, each needing attention,
      and all of them when there are no more than ten. */
  lemma {:induction false} AttentionItemsSelect(items: seq<Item>)
    ensures |AttentionItems(items)| <= DASHBOARD_LIMIT
    ensures forall i :: i in AttentionItems(items) ==> i in items && NeedsAttention(i)
    ensures |Where(items, NeedsAttention)| <= DASHBOARD_LIMIT ==>
              forall i :: i in items && NeedsAttention(i) ==> i in AttentionItems(items)
  {
    FirstNOfWhere(items, NeedsAttention, DASHBOARD_LIMIT);
  }

  /** Likewise the low-stock list: at most ten items, each of negative quantity. */
  lemma {:induction false} LowStockItemsSelect(items: seq<Item>)
    ensures |LowStockItems(items)| <= DASHBOARD_LIMIT
    ensures forall i :: i in LowStockItems(items) ==> i in items && i.quantity < 0
    ensures |LowStock(items)| <= DASHBOARD_LIMIT ==>
              forall i :: i in items && i.quantity < 0 ==> i in LowStockItems(items)
  {
    FirstNOfWhere(items, IsLowStock, DASHBOARD_LIMIT);
  }

  // ---------------------------------------------------------------------------
  // The views that change the table
  // ---------------------------------------------------------------------------

  /** A JSON reply of the AJAX views, or the 404 of `get_object_or_404`. */
  datatype JsonReply = Success(quantity: Option<int>) | Failure(error: string) | NotFound

  const INVALID_REQUEST: string := "Invalid request"
  const INVALID_QUANTITY: string := "Invalid quantity"

  /** A full-page view's outcome. */
  datatype Page = ToList | ConfirmPage | PageNotFound

  class InventoryStore {
    var items: map<nat, Item>

    ghost predicate Valid()
      reads this
    {
      forall k :: k in items ==> items[k].id == k
    }

    constructor ()
      ensures Valid() && items == map[]
    {
      items := map[];
    }

    /** `inventory_quick_update`: only an AJAX POST acts; a missing item is
        404; a quantity `int()` cannot read (or none at all) is refused and
        changes nothing; otherwise the quantity becomes the parsed value. */
    method QuickUpdate(post: bool, ajax: bool, pk: nat, quantity: Option<string>) returns (reply: JsonReply)
      requires Valid()
      modifies this
      ensures Valid()
      ensures !(post && ajax) ==> reply == Failure(INVALID_REQUEST)
      ensures post && ajax && pk !in old(items) ==> reply == NotFound
      ensures post && ajax && pk in old(items) && (quantity.None? || PyInt(quantity.value).None?) ==>
                reply == Failure(INVALID_QUANTITY)
      ensures reply.Success? <==> post && ajax && pk in old(items) && quantity.Some? && PyInt(quantity.value).Some?
      ensures reply.Success? ==>
                reply.quantity == PyInt(quantity.value)
                && items == old(items)[pk := old(items[pk]).(quantity := PyInt(quantity.value).value)]
      ensures !reply.Success? ==> items == old(items)
    {
      if !(post && ajax) {
        return Failure(INVALID_REQUEST);
      }
      if pk !in items {
        return NotFound;
      }
      if quantity.None? {
        return Failure(INVALID_QUANTITY);
      }
      var parsed := PyInt(quantity.value);
      if parsed.None? {
        return Failure(INVALID_QUANTITY);
      }
      items := items[pk := items[pk].(quantity := parsed.value)];
      reply := Success(parsed);
    }

    /** `delete_inventory`: only an AJAX POST deletes, and only an existing item. */
    method DeleteInventory(post: bool, ajax: bool, pk: nat) returns (reply: JsonReply)
      requires Valid()
      modifies this
      ensures Valid()
      ensures reply.Success? <==> post && ajax && pk in old(items)
      ensures reply.Success? ==> items == old(items) - {pk} && reply.quantity.None?
      ensures !reply.Success? ==> items == old(items)
      ensures !(post && ajax) ==> reply == Failure(INVALID_REQUEST)
      ensures post && ajax && pk !in old(items) ==> reply == NotFound
    {
      if !(post && ajax) {
        return Failure(INVALID_REQUEST);
      }
      if pk !in items {
        return NotFound;
      }
      items := items - {pk};
      reply := Success(None);
    }

    /** `inventory_delete`: a missing item is 404; a POST deletes it, any
        other method shows the confirmation and deletes nothing. */
    method InventoryDelete(post: bool, pk: nat) returns (page: Page)
      requires Valid()
      modifies this
      ensures Valid()
      ensures pk !in old(items) ==> page == PageNotFound
      ensures page == ToList <==> post && pk in old(items)
      ensures page == ToList ==> items == old(items) - {pk}
      ensures page != ToList ==> items == old(items)
    {
      if pk !in items {
        return PageNotFound;
      }
      if !post {
        return ConfirmPage;
      }
      items := items - {pk};
      page := ToList;
    }
  }
}
