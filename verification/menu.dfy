/**
 The menu section: three tabs over a fixed table of items. The active tab
 starts at "coffee"; pressing a tab button makes it active, and the cards of
 exactly that tab's items are shown, each revealed with a delay of 100 ms
 per position and keyed by tab name and position.
 */
module Menu {
  import Decimal

  /** One entry of the menu table (the `MenuItem` record). */
  datatype MenuItem = MenuItem(name: string, price: string, desc: string)

  /** The keys of the menu table, in the order `Object.keys` lists them. */
  datatype Category = Coffee | Pastries | Seasonal

  const Tabs: seq<Category> := [Coffee, Pastries, Seasonal]

  /** The key, which is also the button's caption and the prefix of each card's key. */
  function TabName(c: Category): string {
    match c
    case Coffee => "coffee"
    case Pastries => "pastries"
    case Seasonal => "seasonal"
  }

  /** `menuItems[tab]`. */
  function Items(c: Category): seq<MenuItem> {
    match c
    case Coffee => [
      MenuItem("Classic Espresso", "$3.50", "Single shot of our signature house blend."),
      MenuItem("Caffè Latte", "$4.50", "Espresso with steamed milk and light foam."),
      MenuItem("Cappuccino", "$4.50", "Equal parts espresso, steamed milk, and foam."),
      MenuItem("Caramel Macchiato", "$5.25", "Espresso with vanilla syrup, milk, and caramel."),
      MenuItem("Flat White", "$4.75", "Micro-foamed milk poured over double espresso."),
      MenuItem("Mocha Fusion", "$5.50", "Espresso with bittersweet chocolate and milk.")
    ]
    case Pastries => [
      MenuItem("Almond Croissant", "$4.25", "Buttery, flaky pastry with almond cream."),
      MenuItem("Blueberry Scone", "$3.75", "Freshly baked with local blueberries."),
      MenuItem("Dark Choco Muffin", "$3.50", "Rich chocolate muffin with Belgian chips.")
    ]
    case Seasonal => [
      MenuItem("Pumpkin Spice Latte", "$5.95", "The autumn classic with real pumpkin."),
      MenuItem("Honey Lavender Latte", "$5.95", "Infused with organic lavender buds.")
    ]
  }

  /** The section's state: the active tab. */
  datatype MenuState = MenuState(activeTab: Category)

  const Initial: MenuState := MenuState(Coffee)

  /** `setActiveTab(tab)`, the handler of each tab button. */
  function SelectTab(s: MenuState, tab: Category): (r: MenuState)
    ensures r.activeTab == tab
    ensures forall k :: 0 <= k < |Cards(r)| ==> Cards(r)[k].item == Items(tab)[k]
  {
    MenuState(tab)
  }

  /** The stagger between successive cards, in milliseconds. */
  const StaggerMs: int := 100

  /** A rendered card: its React key, its item and its reveal delay. */
  datatype Card = Card(key: string, item: MenuItem, delayMs: int)

  /** `${activeTab}-${i}`. */
  function CardKey(c: Category, i: nat): (r: string)
    ensures var n := |TabName(c)|;
            && |r| > n + 1 && r[..n] == TabName(c) && r[n] == '-'
            && Decimal.Canonical(r[n + 1..]) && Decimal.Value(r[n + 1..]) == i
  {
    var n := |TabName(c)|;
    var r := TabName(c) + "-" + Decimal.NatToString(i);
    assert r[n + 1..] == Decimal.NatToString(i);
    Decimal.ValueOfNatToString(i);
    r
  }

  /** Within one tab, different positions never share a key. */
  lemma KeysWithinTabDistinct(c: Category, m: nat)
    ensures forall i, j :: 0 <= i < j < m ==> CardKey(c, i) != CardKey(c, j)
  {
    forall i, j | 0 <= i < j < m
      ensures CardKey(c, i) != CardKey(c, j)
    {
      CardKeysDistinct(c, i, c, j);
    }
  }

  /** The cards of the active tab, in table order. */
  function Cards(s: MenuState): (r: seq<Card>)
    ensures |r| == |Items(s.activeTab)|
    ensures forall i, j :: 0 <= i < j < |r| ==> r[i].key != r[j].key && r[i].delayMs < r[j].delayMs
  {
    var items := Items(s.activeTab);
    KeysWithinTabDistinct(s.activeTab, |items|);
    seq(|items|, i requires 0 <= i < |items| => Card(CardKey(s.activeTab, i), items[i], i * StaggerMs))
  }

  /** The tab buttons cover every category, once each, and, as their names differ,
      the button highlighted (`activeTab === tab`) is exactly the active one. */
  lemma TabsAreCategories()
    ensures forall c: Category :: c in Tabs
    ensures forall i, j :: 0 <= i < j < |Tabs| ==> Tabs[i] != Tabs[j]
    ensures forall a: Category, b: Category :: TabName(a) == TabName(b) <==> a == b
  {
    forall c: Category
      ensures c in Tabs
    {
      match c
      case Coffee => assert Tabs[0] == c;
      case Pastries => assert Tabs[1] == c;
      case Seasonal => assert Tabs[2] == c;
    }
    forall a: Category, b: Category | TabName(a) == TabName(b)
      ensures a == b
    {
      assert TabName(a)[0] == TabName(b)[0];
    }
  }

  /** The shown cards are exactly the active tab's items, in order, the i-th one
      delayed by i * 100 ms; before any press that tab is "coffee". */
  lemma CardsShowActiveItems(s: MenuState)
    ensures |Cards(s)| == |Items(s.activeTab)|
    ensures forall i :: 0 <= i < |Cards(s)| ==>
              Cards(s)[i].item == Items(s.activeTab)[i] && Cards(s)[i].delayMs == i * StaggerMs
    ensures forall m :: m in Items(s.activeTab) <==> exists i :: 0 <= i < |Cards(s)| && Cards(s)[i].item == m
    ensures Initial.activeTab == Coffee && |Cards(Initial)| == 6
  {
  }

  /** No item belongs to two tabs. */
  lemma TabsDisjoint(a: Category, b: Category, i: nat, j: nat)
    requires a != b && i < |Items(a)| && j < |Items(b)|
    ensures Items(a)[i] != Items(b)[j]
  {
  }

  /** Pressing a tab other than the active one replaces the shown items entirely:
      every new card holds an item of the pressed tab and none of the previous tab's. */
  lemma SwitchReplacesItems(s: MenuState, tab: Category)
    requires tab != s.activeTab
    ensures forall k :: 0 <= k < |Cards(SelectTab(s, tab))| ==>
              Cards(SelectTab(s, tab))[k].item in Items(tab)
              && Cards(SelectTab(s, tab))[k].item !in Items(s.activeTab)
  {
    var cards := Cards(SelectTab(s, tab));
    forall k | 0 <= k < |cards|
      ensures cards[k].item in Items(tab) && cards[k].item !in Items(s.activeTab)
    {
      assert cards[k].item == Items(tab)[k];
      forall j | 0 <= j < |Items(s.activeTab)|
        ensures Items(s.activeTab)[j] != cards[k].item
      {
        TabsDisjoint(tab, s.activeTab, k, j);
      }
    }
  }

  /** After pressing another tab no card reuses a previous card's key, so React
      mounts every card afresh and each is revealed again from hidden. */
  lemma SwitchRenewsKeys(s: MenuState, tab: Category)
    requires tab != s.activeTab
    ensures forall k, l :: 0 <= k < |Cards(SelectTab(s, tab))| && 0 <= l < |Cards(s)| ==>
              Cards(SelectTab(s, tab))[k].key != Cards(s)[l].key
  {
    forall k, l | 0 <= k < |Cards(SelectTab(s, tab))| && 0 <= l < |Cards(s)|
      ensures Cards(SelectTab(s, tab))[k].key != Cards(s)[l].key
    {
      CardKeysDistinct(tab, k, s.activeTab, l);
    }
  }

  /** Card keys identify tab and position: different pairs never share a key. */
  lemma CardKeysDistinct(a: Category, i: nat, b: Category, j: nat)
    ensures CardKey(a, i) == CardKey(b, j) <==> a == b && i == j
  {
    if CardKey(a, i) == CardKey(b, j) {
      assert CardKey(a, i)[0] == TabName(a)[0];
      assert CardKey(b, j)[0] == TabName(b)[0];
      assert a == b;
      var n := |TabName(a)| + 1;
      assert CardKey(a, i)[n..] == Decimal.NatToString(i);
      assert CardKey(b, j)[n..] == Decimal.NatToString(j);
      Decimal.NatToStringInjective(i, j);
    }
  }
}
