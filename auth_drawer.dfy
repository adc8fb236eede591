/**
 * The auth widget's upkeep of the mobile drawer menu. The drawer's children
 * are a list of items; items the widget adds carry the `data-auth-injected`
 * marker. Each render removes every marked item and then adds "Login", or
 * "Preferencias" and "Salir", before the page's "Contacto" item or at the end.
 */
module AuthWidget {
  import opened JsText

  /** A child of the drawer: its text and whether it carries `data-auth-injected="1"`. */
  datatype Item = Item(text: string, injected: bool)

  const LoginItem: Item := Item("Login", true)
  const PrefsItem: Item := Item("Preferencias", true)
  const LogoutItem: Item := Item("Salir", true)
  const ContactText: string := "contacto"
  const FallbackName: string := "Cuenta"

  /** What `getUser` gave: an error, nobody signed in, or a user. */
  datatype AuthUser = AuthUser(metaName: Option<string>, email: Option<string>)
  datatype AuthOutcome = AuthFailed | SignedOut | SignedIn(user: AuthUser)

  /** The `find` test: the item's text, trimmed and lower-cased, is "contacto". */
  predicate IsContact(it: Item) {
    TrimmedLowerIs(it.text, ContactText)
  }

  /** The test is exactly `text.trim().toLowerCase() === "contacto"`. */
  lemma ContactIsLowerTrim(it: Item)
    ensures IsContact(it) <==> ToLower(Trim(it.text)) == ContactText
  {
    TrimmedLowerIsSpec(it.text, ContactText);
  }

  /** The page's own items: every child without the marker, in order. */
  function PageItems(s: seq<Item>): (r: seq<Item>)
    ensures |r| <= |s|
  {
    if s == [] then []
    else (if s[0].injected then [] else [s[0]]) + PageItems(s[1..])
  }

  /** The marked items, in order. */
  function InjectedItems(s: seq<Item>): (r: seq<Item>)
    ensures |r| <= |s|
    ensures forall i :: 0 <= i < |r| ==> r[i].injected
  {
    if s == [] then []
    else (if s[0].injected then [s[0]] else []) + InjectedItems(s[1..])
  }

  /** The index of the first element of `s` that satisfies `p`, or the length when none does. */
  function FirstWhere<T>(s: seq<T>, p: T -> bool): (k: nat)
    ensures k <= |s|
  {
    if s == [] || p(s[0]) then 0 else 1 + FirstWhere(s[1..], p)
  }

  /** The index of the first "contacto" item, or the length when there is none. */
  function FirstContact(s: seq<Item>): (k: nat)
    ensures k <= |s|
  {
    FirstWhere(s, IsContact)
  }

  /** The items a render adds for an outcome. */
  function InjectedFor(o: AuthOutcome): seq<Item> {
    if o.SignedIn? then [PrefsItem, LogoutItem] else [LoginItem]
  }

  /**
   * The drawer after a render: the page items, with the outcome's items
   * placed before the first "contacto" item or at the end; after a failed
   * `getUser` the Login item always goes at the end.
   */
  function Rendered(s: seq<Item>, o: AuthOutcome): seq<Item> {
    var page := PageItems(s);
    if o.AuthFailed? then page + [LoginItem]
    else
      var k := FirstContact(page);
      page[..k] + InjectedFor(o) + page[k..]
  }

  /** `Array.prototype.find`, as an index: the first element satisfying `p`, or the length. */
  method Find<T>(s: seq<T>, p: T -> bool) returns (k: nat)
    ensures k == FirstWhere(s, p)
  {
    k := 0;
    while k < |s| && !p(s[k])
      invariant k <= |s|
      invariant forall i :: 0 <= i < k ==> !p(s[i])
    {
      k := k + 1;
    }
    FirstWhereAt(s, p, k);
  }

  /** The mobile drawer's `nav` element. */
  class Drawer {
    var children: seq<Item>

    constructor (items: seq<Item>)
      ensures children == items
    {
      children := items;
    }

    /** `cleanupDrawerInjected`: every marked child is removed, the others stay in order. */
    method CleanupInjected()
      modifies this
      ensures children == PageItems(old(children))
    {
      var orig := children;  // the static list the query returns
      var i, j := 0, 0;
      while j < |orig|
        invariant 0 <= j <= |orig| && 0 <= i <= |children|
        invariant children[..i] == PageItems(orig[..j])
        invariant children[i..] == orig[j..]
      {
        CleanupStep(children, orig, i, j);
        if children[i].injected {
          children := children[..i] + children[i + 1..];
        } else {
          i := i + 1;
        }
        j := j + 1;
      }
      assert orig[..j] == orig;
      assert children == children[..i];
    }

    /** `[...children].find(isContact)`, as an index: the length when nothing is found. */
    method FindContact() returns (k: nat)
      ensures k == FirstContact(children)
    {
      k := Find(children, IsContact);
    }

    /** `insertBefore(item, children[k])`. */
    method InsertBefore(item: Item, k: nat)
      requires k < |children|
      modifies this
      ensures children == old(children)[..k] + [item] + old(children)[k..]
    {
      children := children[..k] + [item] + children[k..];
    }

    /** `appendChild(item)`. */
    method AppendChild(item: Item)
      modifies this
      ensures children == old(children) + [item]
    {
      children := children + [item];
    }

    /**
     * The signed-out branch after cleanup: Login goes before the first
     * "contacto" child, or last when there is none.
     */
    method InsertLogin()
      modifies this
      ensures var k := FirstContact(old(children));
              children == old(children)[..k] + [LoginItem] + old(children)[k..]
    {
      var k := FindContact();
      if k < |children| {
        InsertBefore(LoginItem, k);
      } else {
        AppendChild(LoginItem);
        assert old(children)[..k] == old(children) && old(children)[k..] == [];
      }
    }

    /**
     * The signed-in branch after cleanup: Preferencias and then Salir go
     * before the first "contacto" child, or last when there is none.
     */
    method InsertAccountLinks()
      modifies this
      ensures var k := FirstContact(old(children));
              children == old(children)[..k] + [PrefsItem, LogoutItem] + old(children)[k..]
    {
      ghost var page := children;
      var k := FindContact();
      if k < |children| {
        InsertBefore(PrefsItem, k);
        InsertBefore(LogoutItem, k + 1);
        InsertedTwice(page, k, PrefsItem, LogoutItem);
      } else {
        AppendChild(PrefsItem);
        AppendChild(LogoutItem);
        assert page[..k] == page && page[k..] == [];
      }
    }

    /** The drawer part of `render`, for the outcome of `getUser`. */
    method Render(o: AuthOutcome)
      modifies this
      ensures children == Rendered(old(children), o)
    {
      CleanupInjected();
      match o
      case AuthFailed => AppendChild(LoginItem);
      case SignedOut => InsertLogin();
      case SignedIn(_) => InsertAccountLinks();
    }
  }

  /** Two `insertBefore` calls against the same reference item leave the pair adjacent and in order. */
  lemma InsertedTwice(page: seq<Item>, k: nat, a: Item, b: Item)
    requires k < |page|
    ensures var once := page[..k] + [a] + page[k..];
            once[..k + 1] + [b] + once[k + 1..] == page[..k] + [a, b] + page[k..]
  {
    var once := page[..k] + [a] + page[k..];
    assert once[..k + 1] == page[..k] + [a];
    assert once[k + 1..] == page[k..];
  }

  /** No element before the index satisfies `p`, and the one at it does, if any. */
  lemma {:induction false} FirstWhereSpec<T>(s: seq<T>, p: T -> bool)
    ensures forall i :: 0 <= i < FirstWhere(s, p) ==> !p(s[i])
    ensures FirstWhere(s, p) < |s| ==> p(s[FirstWhere(s, p)])
  {
    if s != [] && !p(s[0]) {
      FirstWhereSpec(s[1..], p);
      assert forall i :: 1 <= i < |s| ==> s[i] == s[1..][i - 1];
    }
  }

  /** The facts FirstWhereSpec states determine the index. */
  lemma {:induction false} FirstWhereAt<T>(s: seq<T>, p: T -> bool, k: nat)
    requires k <= |s|
    requires forall i :: 0 <= i < k ==> !p(s[i])
    requires k < |s| ==> p(s[k])
    ensures FirstWhere(s, p) == k
  {
    if k > 0 {
      FirstWhereAt(s[1..], p, k - 1);
    }
  }

  /** A prefix with no element satisfying `p` only shifts the index. */
  lemma {:induction false} FirstWhereConcat<T>(a: seq<T>, b: seq<T>, p: T -> bool)
    requires forall i :: 0 <= i < |a| ==> !p(a[i])
    ensures FirstWhere(a + b, p) == |a| + FirstWhere(b, p)
  {
    if a == [] {
      assert a + b == b;
    } else {
      assert (a + b)[0] == a[0] && (a + b)[1..] == a[1..] + b;
      FirstWhereConcat(a[1..], b, p);
    }
  }

  /** Filtering out the marked items distributes over concatenation. */
  lemma {:induction false} PageItemsAppend(a: seq<Item>, b: seq<Item>)
    ensures PageItems(a + b) == PageItems(a) + PageItems(b)
  {
    if a == [] {
      assert a + b == b;
    } else {
      assert (a + b)[0] == a[0] && (a + b)[1..] == a[1..] + b;
      PageItemsAppend(a[1..], b);
    }
  }

  /**
   * One round of the cleanup loop: `cur` holds the filtered first `j` items
   * of `orig` and then the rest of `orig` untouched, from position `i`;
   * removing or passing over the next item keeps that shape for `j + 1`.
   */
  lemma CleanupStep(cur: seq<Item>, orig: seq<Item>, i: nat, j: nat)
    requires j < |orig| && i <= |cur|
    requires cur[..i] == PageItems(orig[..j]) && cur[i..] == orig[j..]
    ensures i < |cur| && cur[i] == orig[j]
    ensures orig[j].injected ==>
              var next := cur[..i] + cur[i + 1..];
              next[..i] == PageItems(orig[..j + 1]) && next[i..] == orig[j + 1..]
    ensures !orig[j].injected ==>
              cur[..i + 1] == PageItems(orig[..j + 1]) && cur[i + 1..] == orig[j + 1..]
  {
    assert cur[i] == cur[i..][0];
    PageItemsSnoc(orig, j);
    if orig[j].injected {
      var next := cur[..i] + cur[i + 1..];
      assert next[..i] == cur[..i];
      assert next[i..] == cur[i + 1..];
      assert cur[i + 1..] == cur[i..][1..];
    } else {
      assert cur[..i + 1] == cur[..i] + [cur[i]];
      assert cur[i + 1..] == cur[i..][1..];
    }
  }

  /** Extending a prefix by one item extends its filtered form by that item, if unmarked. */
  lemma PageItemsSnoc(s: seq<Item>, j: nat)
    requires j < |s|
    ensures PageItems(s[..j + 1]) == PageItems(s[..j]) + (if s[j].injected then [] else [s[j]])
  {
    assert s[..j + 1] == s[..j] + [s[j]];
    PageItemsAppend(s[..j], [s[j]]);
  }

  /** Keeping the marked items distributes over concatenation. */
  lemma {:induction false} InjectedItemsAppend(a: seq<Item>, b: seq<Item>)
    ensures InjectedItems(a + b) == InjectedItems(a) + InjectedItems(b)
  {
    if a == [] {
      assert a + b == b;
    } else {
      assert (a + b)[0] == a[0] && (a + b)[1..] == a[1..] + b;
      InjectedItemsAppend(a[1..], b);
    }
  }

  /** The filter keeps no marked item. */
  lemma {:induction false} PageItemsUnmarked(s: seq<Item>)
    ensures forall i :: 0 <= i < |PageItems(s)| ==> !PageItems(s)[i].injected
  {
    if s != [] {
      PageItemsUnmarked(s[1..]);
    }
  }

  /** Every unmarked item is kept as often as it occurs, every marked one dropped. */
  lemma {:induction false} PageItemsCount(s: seq<Item>, it: Item)
    ensures multiset(PageItems(s))[it] == if it.injected then 0 else multiset(s)[it]
  {
    if s != [] {
      PageItemsCount(s[1..], it);
      assert s == [s[0]] + s[1..];
    }
  }

  /** A list of page items only is unchanged by the filter and holds nothing marked. */
  lemma {:induction false} PageOnly(s: seq<Item>)
    requires forall i :: 0 <= i < |s| ==> !s[i].injected
    ensures PageItems(s) == s
    ensures InjectedItems(s) == []
  {
    if s != [] {
      PageOnly(s[1..]);
    }
  }

  /** A list of marked items only is dropped entirely by the filter. */
  lemma {:induction false} InjectedOnly(s: seq<Item>)
    requires forall i :: 0 <= i < |s| ==> s[i].injected
    ensures PageItems(s) == []
    ensures InjectedItems(s) == s
  {
    if s != [] {
      InjectedOnly(s[1..]);
    }
  }

  /** `Rendered` as a concatenation of the page's parts and the outcome's items. */
  lemma RenderedParts(s: seq<Item>, o: AuthOutcome)
    ensures var page := PageItems(s);
            var k := if o.AuthFailed? then |page| else FirstContact(page);
            Rendered(s, o) == page[..k] + InjectedFor(o) + page[k..]
  {
    var page := PageItems(s);
    if o.AuthFailed? {
      assert page[..|page|] == page && page[|page|..] == [];
    }
  }

  /** The page's own items survive every render, all of them and in their order. */
  lemma RenderKeepsPageItems(s: seq<Item>, o: AuthOutcome)
    ensures PageItems(Rendered(s, o)) == PageItems(s)
  {
    var page := PageItems(s);
    RenderedParts(s, o);
    PageItemsUnmarked(s);
    PlacedSplits(page, if o.AuthFailed? then |page| else FirstContact(page), InjectedFor(o));
  }

  /**
   * After a render the marked items are exactly those of the outcome: one
   * Login, or Preferencias then Salir; nothing from earlier renders is left.
   */
  lemma RenderInjectsExactly(s: seq<Item>, o: AuthOutcome)
    ensures InjectedItems(Rendered(s, o)) == InjectedFor(o)
  {
    var page := PageItems(s);
    RenderedParts(s, o);
    PageItemsUnmarked(s);
    PlacedSplits(page, if o.AuthFailed? then |page| else FirstContact(page), InjectedFor(o));
  }

  /** Marked items placed among unmarked ones come apart again under the two filters. */
  lemma PlacedSplits(page: seq<Item>, k: nat, inj: seq<Item>)
    requires k <= |page|
    requires forall i :: 0 <= i < |page| ==> !page[i].injected
    requires forall i :: 0 <= i < |inj| ==> inj[i].injected
    ensures PageItems(page[..k] + inj + page[k..]) == page
    ensures InjectedItems(page[..k] + inj + page[k..]) == inj
  {
    var pre, post := page[..k], page[k..];
    assert pre + post == page;
    PageOnly(pre);
    PageOnly(post);
    InjectedOnly(inj);
    PlacedPage(pre, inj, post);
    PlacedInjected(pre, inj, post);
  }

  lemma PlacedPage(pre: seq<Item>, inj: seq<Item>, post: seq<Item>)
    requires PageItems(pre) == pre && PageItems(post) == post && PageItems(inj) == []
    ensures PageItems(pre + inj + post) == pre + post
  {
    PageItemsAppend(pre + inj, post);
    PageItemsAppend(pre, inj);
    assert pre + [] == pre;
  }

  lemma PlacedInjected(pre: seq<Item>, inj: seq<Item>, post: seq<Item>)
    requires InjectedItems(pre) == [] && InjectedItems(post) == [] && InjectedItems(inj) == inj
    ensures InjectedItems(pre + inj + post) == inj
  {
    InjectedItemsAppend(pre + inj, post);
    InjectedItemsAppend(pre, inj);
    assert [] + inj + [] == inj;
  }

  /** Once signed in, no Login item is left in the drawer. */
  lemma SignedInHasNoLogin(s: seq<Item>, u: AuthUser)
    ensures LoginItem !in Rendered(s, SignedIn(u))
  {
    var r := Rendered(s, SignedIn(u));
    RenderKeepsPageItems(s, SignedIn(u));
    RenderInjectsExactly(s, SignedIn(u));
    if LoginItem in r {
      InjectedMember(r, LoginItem);
    }
  }

  lemma {:induction false} InjectedMember(s: seq<Item>, it: Item)
    requires it in s && it.injected
    ensures it in InjectedItems(s)
  {
    if s[0] != it {
      InjectedMember(s[1..], it);
    }
  }

  /** No item a render adds ("Login", "Preferencias", "Salir") reads as "contacto". */
  lemma OutcomeItemsNotContacts(o: AuthOutcome)
    ensures forall it :: it in InjectedFor(o) ==> !IsContact(it)
  {
  }

  /**
   * Items that are not "contacto", placed right before the first "contacto"
   * item, leave it the first one; placed at the end of a list without one, the
   * list still has none.
   */
  lemma PlacedBeforeContact(page: seq<Item>, inj: seq<Item>)
    requires forall it :: it in inj ==> !IsContact(it)
    ensures var k := FirstContact(page);
            var r := page[..k] + inj + page[k..];
            FirstContact(r) == if k < |page| then k + |inj| else |r|
  {
    forall i | 0 <= i < |inj|
      ensures !IsContact(inj[i])
    {
      assert inj[i] in inj;
    }
    PlacedBeforeFirst(page, inj, IsContact);
  }

  lemma PlacedBeforeFirst<T>(page: seq<T>, inj: seq<T>, p: T -> bool)
    requires forall i :: 0 <= i < |inj| ==> !p(inj[i])
    ensures var k := FirstWhere(page, p);
            var r := page[..k] + inj + page[k..];
            FirstWhere(r, p) == if k < |page| then k + |inj| else |r|
  {
    var k := FirstWhere(page, p);
    FirstWhereSpec(page, p);
    var pre, post := page[..k], page[k..];
    assert forall i :: 0 <= i < |pre| ==> !p(pre[i]);
    FirstWhereConcat(inj, post, p);
    FirstWhereConcat(pre, inj + post, p);
    assert pre + inj + post == pre + (inj + post);
    if k < |page| {
      assert post[0] == page[k];
    }
  }

  /** Signed out: Login sits right before the first "contacto" item, or last when there is none. */
  lemma SignedOutPlacement(s: seq<Item>)
    ensures var page := PageItems(s);
            var r := Rendered(s, SignedOut);
            var k := FirstContact(page);
            && |r| == |page| + 1 && r[k] == LoginItem
            && (k < |page| ==> FirstContact(r) == k + 1)
            && (k == |page| ==> r[|r| - 1] == LoginItem && FirstContact(r) == |r|)
  {
    var page := PageItems(s);
    var k := FirstContact(page);
    var inj := InjectedFor(SignedOut);
    var r := page[..k] + inj + page[k..];
    assert Rendered(s, SignedOut) == r;
    OutcomeItemsNotContacts(SignedOut);
    PlacedBeforeContact(page, inj);
    assert r[k] == LoginItem;
  }

  /**
   * Signed in: Preferencias and then Salir sit together right before the
   * first "contacto" item, or last when there is none.
   */
  lemma SignedInPlacement(s: seq<Item>, u: AuthUser)
    ensures var page := PageItems(s);
            var r := Rendered(s, SignedIn(u));
            var k := FirstContact(page);
            && |r| == |page| + 2 && r[k] == PrefsItem && r[k + 1] == LogoutItem
            && (k < |page| ==> FirstContact(r) == k + 2)
            && (k == |page| ==> r[|r| - 2..] == [PrefsItem, LogoutItem] && FirstContact(r) == |r|)
  {
    var page := PageItems(s);
    var k := FirstContact(page);
    var inj := InjectedFor(SignedIn(u));
    var r := page[..k] + inj + page[k..];
    assert Rendered(s, SignedIn(u)) == r;
    OutcomeItemsNotContacts(SignedIn(u));
    PlacedBeforeContact(page, inj);
    assert r[k] == PrefsItem && r[k + 1] == LogoutItem;
    if k == |page| {
      assert page[k..] == [];
      assert r[|r| - 2..] == inj;
    }
  }

  /** After a failed `getUser`, Login is appended last even when a "contacto" item exists. */
  lemma FailedRenderAppends(s: seq<Item>)
    ensures var r := Rendered(s, AuthFailed);
            |r| == |PageItems(s)| + 1 && r[|r| - 1] == LoginItem && r[..|r| - 1] == PageItems(s)
  {
  }

  /**
   * Renders do not pile up: whatever an earlier render added, the next one
   * gives what it would have given on the page alone.
   */
  lemma RenderIdempotent(s: seq<Item>, o1: AuthOutcome, o2: AuthOutcome)
    ensures Rendered(Rendered(s, o1), o2) == Rendered(s, o2)
  {
    RenderKeepsPageItems(s, o1);
  }

  /** `render` twice with the same outcome leaves the drawer as one render did. */
  lemma RenderTwice(s: seq<Item>, o: AuthOutcome)
    ensures Rendered(Rendered(s, o), o) == Rendered(s, o)
  {
    RenderIdempotent(s, o, o);
  }

  // ---------------------------------------------------------------------------
  // The display name
  // ---------------------------------------------------------------------------

  /** `user_metadata.name || (email || "").split("@")[0] || "Cuenta"`. */
  function DisplayName(u: AuthUser): (name: string)
    ensures name != ""
  {
    if Truthy(u.metaName) then u.metaName.value
    else if BeforeFirst(OrEmpty(u.email), '@') != "" then BeforeFirst(OrEmpty(u.email), '@')
    else FallbackName
  }

  /** A set metadata name always wins. */
  lemma MetadataNameFirst(name: string, email: Option<string>)
    requires name != ""
    ensures DisplayName(AuthUser(Some(name), email)) == name
  {
  }

  /** Without a metadata name, the local part of the address is shown. */
  lemma LocalPartShown(meta: Option<string>, local: string, domain: string)
    requires !Truthy(meta) && local != "" && '@' !in local
    ensures DisplayName(AuthUser(meta, Some(local + "@" + domain))) == local
  {
    var e := local + "@" + domain;
    assert e[..|local|] == local;
    BeforeFirstAt(e, '@', |local|);
  }

  /** An address that starts with `@`, or no address at all, falls back to "Cuenta". */
  lemma NoLocalPartFallsBack(meta: Option<string>, rest: string)
    requires !Truthy(meta)
    ensures DisplayName(AuthUser(meta, Some("@" + rest))) == FallbackName
    ensures DisplayName(AuthUser(meta, None)) == FallbackName
  {
    assert ("@" + rest)[0] == '@';
  }

  /** The name shown never holds an `@` unless the metadata name has one. */
  lemma DisplayNameHasNoAtFromEmail(u: AuthUser)
    requires !Truthy(u.metaName)
    ensures '@' !in DisplayName(u)
  {
  }
}
