/** The bottom navigation bar: which of its three items is highlighted for
    the current pathname. */
module BottomNav {

  datatype NavItem = NavItem(href: string, text: string)

  const Home: NavItem := NavItem("/", "Home")
  const QuotesItem: NavItem := NavItem("/quotes", "Quotes")
  const ProgressItem: NavItem := NavItem("/progress", "Progress")

  const NavItems: seq<NavItem> := [Home, QuotesItem, ProgressItem]

  /** `s.startsWith(prefix)`. */
  predicate StartsWith(s: string, prefix: string) {
    |prefix| <= |s| && s[..|prefix|] == prefix
  }

  /** The root item needs an exact match; every other item a prefix match. */
  predicate IsActive(item: NavItem, pathname: string) {
    if item.href == "/" then pathname == "/" else StartsWith(pathname, item.href)
  }

  /** The highlighted items, in bar order. */
  function ActiveItems(pathname: string): (r: seq<NavItem>)
    ensures forall i :: 0 <= i < |r| ==> r[i] in NavItems && IsActive(r[i], pathname)
    ensures forall i :: 0 <= i < |NavItems| && IsActive(NavItems[i], pathname) ==> NavItems[i] in r
  {
    ActiveAmong(NavItems, pathname)
  }

  function ActiveAmong(items: seq<NavItem>, pathname: string): (r: seq<NavItem>)
    ensures forall i :: 0 <= i < |r| ==> r[i] in items && IsActive(r[i], pathname)
    ensures forall i :: 0 <= i < |items| && IsActive(items[i], pathname) ==> items[i] in r
  {
    if |items| == 0 then []
    else
      var rest := ActiveAmong(items[1..], pathname);
      assert forall i :: 1 <= i < |items| ==> items[i] == items[1..][i - 1];
      if IsActive(items[0], pathname) then [items[0]] + rest else rest
  }

  function IfActive(item: NavItem, pathname: string): seq<NavItem> {
    if IsActive(item, pathname) then [item] else []
  }

  /** The bar, item by item. */
  lemma ActiveItemsUnfold(pathname: string)
    ensures ActiveItems(pathname)
         == IfActive(Home, pathname) + IfActive(QuotesItem, pathname) + IfActive(ProgressItem, pathname)
  {
    var a, b, c := Home, QuotesItem, ProgressItem;
    assert NavItems[1..] == [b, c];
    assert [b, c][1..] == [c];
    assert [c][1..] == [];
    assert ActiveAmong([c], pathname) == IfActive(c, pathname);
    assert ActiveAmong([b, c], pathname) == IfActive(b, pathname) + IfActive(c, pathname);
    assert ActiveAmong(NavItems, pathname)
        == IfActive(a, pathname) + (IfActive(b, pathname) + IfActive(c, pathname));
  }

  /** Home is highlighted exactly on the root path. */
  lemma HomeActiveIff(pathname: string)
    ensures IsActive(Home, pathname) <==> pathname == "/"
  {
  }

  /** Any other item is highlighted exactly when the path starts with its
      href, even with no separator after it: "/quotesX" highlights Quotes. */
  lemma OtherActiveIff(item: NavItem, pathname: string)
    requires item in NavItems && item != Home
    ensures IsActive(item, pathname) <==> StartsWith(pathname, item.href)
    ensures IsActive(QuotesItem, "/quotesX")
  {
    assert "/quotesX"[..|"/quotes"|] == "/quotes";
  }

  /** On the root path only Home is highlighted. */
  lemma RootHighlightsHome()
    ensures ActiveItems("/") == [Home]
  {
    ActiveItemsUnfold("/");
  }

  /** Whatever the path, at most one item is highlighted. */
  lemma AtMostOneActive(pathname: string)
    ensures |ActiveItems(pathname)| <= 1
  {
    ActiveItemsUnfold(pathname);
    if StartsWith(pathname, "/quotes") {
      assert pathname[1] == 'q';
      assert !StartsWith(pathname, "/progress");
    }
  }

  /** The assistant's pages highlight nothing. */
  lemma AssistantHighlightsNothing(pathname: string)
    requires StartsWith(pathname, "/ai-assistant")
    ensures ActiveItems(pathname) == []
  {
    ActiveItemsUnfold(pathname);
    assert pathname[1] == 'a';
  }
}
