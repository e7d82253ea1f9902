/** The navigation bar with its moving highlight. The model keeps which link
    carries the `active` class and which link the highlight returns to
    (`startLink`); the highlight's pixel position is left out. */
module NavBlob {
  import opened JsBuiltins
  import Flags

  /** A navigation link: its `href` attribute and whether it has the `active` class. */
  datatype Link = Link(href: string, active: bool)

  /** The page name used when the path ends in '/' (or is empty). */
  const DefaultPage: string := "index.html"

  /** `seg` is the text of `path` after its last '/' (all of `path` when it has none). */
  predicate IsLastSegment(path: string, seg: string)
  {
    && '/' !in seg
    && |seg| <= |path| && seg == path[|path| - |seg|..]
    && (|seg| < |path| ==> path[|path| - |seg| - 1] == '/')
  }

  /** `location.pathname.split('/').pop() || 'index.html'`. */
  function FileName(path: string): (name: string)
    ensures name != []
    ensures (path == [] || path[|path| - 1] == '/') ==> name == DefaultPage
    ensures !(path == [] || path[|path| - 1] == '/') ==> IsLastSegment(path, name)
  {
    LastOfSplit(path, '/');
    var parts := Split(path, '/');
    var seg := parts[|parts| - 1];
    if seg == [] then DefaultPage else seg
  }

  /** `links.find(l => l.getAttribute('href') === current) || links[0]`, as an index. */
  function StartIndex(links: seq<Link>, current: string): (i: nat)
    requires |links| > 0
    ensures i < |links|
    ensures (exists j :: 0 <= j < |links| && links[j].href == current) ==>
      links[i].href == current && forall j :: 0 <= j < i ==> links[j].href != current
    ensures (forall j :: 0 <= j < |links| ==> links[j].href != current) ==> i == 0
  {
    var hrefs := seq(|links|, j requires 0 <= j < |links| => links[j].href);
    assert forall j :: 0 <= j < |links| ==> hrefs[j] == links[j].href;
    match FindFirst(hrefs, current)
    case None => 0
    case Some(i) => i
  }

  /** The links after `moveBlobTo(links[i])`: the same links, only the `i`th active. */
  function Activated(links: seq<Link>, i: nat): (r: seq<Link>)
    ensures |r| == |links|
    ensures forall j :: 0 <= j < |links| ==> r[j].href == links[j].href && (r[j].active <==> j == i)
  {
    seq(|links|, j requires 0 <= j < |links| => links[j].(active := j == i))
  }

  /** How many links carry the `active` class. */
  function ActiveCount(links: seq<Link>): nat
  {
    Flags.CountSet(seq(|links|, j requires 0 <= j < |links| => links[j].active))
  }

  /** After `moveBlobTo`, exactly one link is active. */
  lemma ActivatedLeavesOne(links: seq<Link>, i: nat)
    requires i < |links|
    ensures ActiveCount(Activated(links, i)) == 1
  {
    var r := Activated(links, i);
    Flags.CountOnlyAt(seq(|r|, j requires 0 <= j < |r| => r[j].active), i);
  }

  /** Moving the highlight to one link and then to another is the same as
      moving it straight to the second: hovering leaves no trace once the
      pointer leaves. */
  lemma MoveTwice(links: seq<Link>, i: nat, k: nat)
    ensures Activated(Activated(links, i), k) == Activated(links, k)
  {
    var a, b := Activated(Activated(links, i), k), Activated(links, k);
    assert forall j :: 0 <= j < |links| ==> a[j] == b[j];
  }

  /** The key test `key >= '1' && key <= '6'`, a comparison of strings. */
  predicate InDigitRange(key: string)
  {
    !StrLess(key, "1") && !StrLess("6", key)
  }

  /** Which strings pass the key test: those starting with '1' to '5', and "6" itself. */
  lemma DigitRangeCharacterized(key: string)
    ensures InDigitRange(key) <==> |key| >= 1 && ('1' <= key[0] <= '5' || key == "6")
  {
    if key != [] {
      assert StrLess(key, "1") <==> key[0] < '1' by {
        if key[0] == '1' {
          assert StrLess(key, "1") == StrLess(key[1..], "");
        }
      }
      assert StrLess("6", key) <==> '6' < key[0] || (key[0] == '6' && |key| > 1) by {
        if key[0] == '6' {
          assert StrLess("6", key) == StrLess("", key[1..]);
        }
      }
      assert key == "6" <==> key[0] == '6' && |key| == 1;
    }
  }

  /** Whether the focused element is a text field (its `tagName`), where shortcuts are ignored. */
  predicate IsTextField(tag: string)
  {
    tag == "INPUT" || tag == "TEXTAREA"
  }

  /** The link a keydown clicks, if any: none while a text field has focus;
      otherwise, for a key that passes the key test, link `Number(key) - 1`
      when that index exists among `count` links. */
  function ShortcutTarget(key: string, focusTag: string, count: nat): (r: Option<nat>)
    ensures r.Some? ==> r.value < count && InDigitRange(key) && !IsTextField(focusTag)
    ensures r.Some? ==> ToNumber(key) == Int(r.value + 1)
    ensures (!IsTextField(focusTag) && InDigitRange(key) && ToNumber(key).Int? &&
             1 <= ToNumber(key).value <= count) ==> r.Some?
  {
    if IsTextField(focusTag) || !InDigitRange(key) then None
    else match ToNumber(key)
      case NaN => None
      case Int(k) => if 1 <= k <= count then Some(k - 1) else None
  }

  /** For a one-character key outside a text field: keys '1' to '6' select
      link `key - 1` when it exists, every other key selects nothing. */
  lemma ShortcutOnCharacter(c: char, focusTag: string, count: nat)
    requires !IsTextField(focusTag)
    ensures var k := c as int - '1' as int;
      ShortcutTarget([c], focusTag, count) ==
        if '1' <= c <= '6' && k < count then Some(k) else None
  {
    DigitRangeCharacterized([c]);
    if '1' <= c <= '6' {
      assert AllDigits([c]);
      assert DigitsValue([c]) == DigitValue(c);
    }
  }

  /** A key that passes the string test but is not a number (such as "1x")
      selects nothing: `links[NaN]` is undefined. */
  lemma ShortcutNotANumber(key: string, i: nat, focusTag: string, count: nat)
    requires 0 < i < |key| && !IsDigit(key[i])
    ensures ShortcutTarget(key, focusTag, count) == None
  {
    NumberOfNonNumeric(key, i);
  }

  /** The navigation bar's state. */
  class Nav {
    var links: seq<Link>
    var startLink: nat

    /** There is a link, `startLink` is one of them, exactly one link is active. */
    ghost predicate Valid()
      reads this
    {
      |links| > 0 && startLink < |links| && ActiveCount(links) == 1
    }

    /** Page load: the start link is the one for the current page, and the
        highlight is placed under it at once. */
    constructor (markup: seq<Link>, path: string)
      requires |markup| > 0
      ensures Valid()
      ensures startLink == StartIndex(markup, FileName(path))
      ensures links == Activated(markup, startLink)
    {
      links := markup;
      startLink := StartIndex(markup, FileName(path));
      new;
      MoveBlobTo(startLink);
      ActivatedLeavesOne(markup, startLink);
    }

    /** `moveBlobTo(links[i])`: clear `active` on every link, then set it on link `i`. */
    method MoveBlobTo(i: nat)
      requires i < |links|
      modifies this
      ensures links == Activated(old(links), i)
      ensures startLink == old(startLink)
    {
      var k := 0;
      while k < |links|
        invariant k <= |links| == |old(links)|
        invariant forall j :: 0 <= j < k ==> links[j] == old(links)[j].(active := false)
        invariant forall j :: k <= j < |links| ==> links[j] == old(links)[j]
        invariant startLink == old(startLink)
      {
        links := links[k := links[k].(active := false)];
        k := k + 1;
      }
      links := links[i := links[i].(active := true)];
      assert forall j :: 0 <= j < |links| ==> links[j] == Activated(old(links), i)[j];
    }

    /** `mouseenter` or `focus` on link `i`: the highlight follows, the start link stays. */
    method Point(i: nat)
      requires Valid() && i < |links|
      modifies this
      ensures Valid()
      ensures links == Activated(old(links), i)
      ensures startLink == old(startLink)
    {
      MoveBlobTo(i);
      ActivatedLeavesOne(old(links), i);
    }

    /** `click` on link `i`: it becomes the start link and the highlight moves to it. */
    method Click(i: nat)
      requires Valid() && i < |links|
      modifies this
      ensures Valid()
      ensures links == Activated(old(links), i)
      ensures startLink == i
    {
      startLink := i;
      MoveBlobTo(startLink);
      ActivatedLeavesOne(old(links), i);
    }

    /** `mouseleave` on the bar, or a window `resize`: back to the start link. */
    method Return()
      requires Valid()
      modifies this
      ensures Valid()
      ensures links == Activated(old(links), startLink)
      ensures startLink == old(startLink)
    {
      MoveBlobTo(startLink);
      ActivatedLeavesOne(old(links), startLink);
    }

    /** `keydown` with `key` while the element tagged `focusTag` has focus:
        a shortcut clicks its link, anything else changes nothing. */
    method KeyDown(key: string, focusTag: string)
      requires Valid()
      modifies this
      ensures Valid()
      ensures var t := ShortcutTarget(key, focusTag, |old(links)|);
        if t.Some? then startLink == t.value && links == Activated(old(links), t.value)
        else startLink == old(startLink) && links == old(links)
    {
      if IsTextField(focusTag) {
        return;
      }
      if InDigitRange(key) {
        var idx := match ToNumber(key) case NaN => None case Int(k) => Some(k - 1);
        if idx.Some? && 0 <= idx.value < |links| {
          Click(idx.value);
        }
      }
    }
  }
}
