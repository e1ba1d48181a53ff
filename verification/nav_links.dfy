/** Highlighting the navigation link of the current page (app.js,
    updateActiveNavLink): the page name is the last `/`-separated segment of the
    pathname, `index.html` when that segment is empty, and a `.nav-link` is
    active exactly when its `href` attribute equals that name. */
module NavLinks {
  import opened Wrappers

  /** A `.nav-link`: its `href` attribute (`None` for `null`) and whether it has class `active`. */
  datatype NavLink = NavLink(href: Option<string>, active: bool)

  const Separator: char := '/'
  const DefaultPage: string := "index.html"

  /** `s.split('/')`: the pieces between separators, in order. */
  function Split(s: string): (r: seq<string>)
    ensures |r| >= 1
    ensures forall i :: 0 <= i < |r| ==> Separator !in r[i]
    ensures |r| == 1 <==> Separator !in s
  {
    if s == [] then [[]]
    else if s[0] == Separator then [[]] + Split(s[1..])
    else
      var t := Split(s[1..]);
      [[s[0]] + t[0]] + t[1..]
  }

  /** `parts.join('/')`, the inverse of `Split`. */
  function Join(parts: seq<string>): (s: string)
    requires |parts| >= 1
  {
    if |parts| == 1 then parts[0] else parts[0] + [Separator] + Join(parts[1..])
  }

  /** Splitting loses nothing: joining the pieces back gives the pathname. */
  lemma {:induction false} JoinSplit(s: string)
    ensures Join(Split(s)) == s
  {
    if s != [] {
      JoinSplit(s[1..]);
      if s[0] != Separator {
        var t := Split(s[1..]);
        if |t| > 1 {
          assert ([[s[0]] + t[0]] + t[1..])[1..] == t[1..];
        }
      }
    }
  }

  /** `pathname.split('/').pop()`: the last piece. */
  function PageName(pathname: string): (name: string)
    ensures Separator !in name
  {
    var parts := Split(pathname);
    parts[|parts| - 1]
  }

  /** The last piece is the text after the last `/` of the pathname: a suffix that
      holds no `/` and is either the whole pathname or preceded by a `/`. */
  lemma {:induction false} PageNameIsAfterLastSlash(pathname: string)
    ensures |PageName(pathname)| <= |pathname|
    ensures pathname[|pathname| - |PageName(pathname)|..] == PageName(pathname)
    ensures Separator !in PageName(pathname)
    ensures |PageName(pathname)| == |pathname|
         || pathname[|pathname| - |PageName(pathname)| - 1] == Separator
  {
    var s := pathname;
    if s != [] {
      var rest := s[1..];
      PageNameIsAfterLastSlash(rest);
      var t := Split(rest);
      var n := PageName(rest);
      if s[0] != Separator && |t| == 1 {
        // no separator after the first character: the last piece is all of it
        assert n == rest;
        assert PageName(s) == [s[0]] + rest == s;
      } else {
        assert PageName(s) == n;
        assert s[|s| - |n|..] == rest[|rest| - |n|..];
        if |n| < |rest| {
          assert s[|s| - |n| - 1] == rest[|rest| - |n| - 1];
        }
      }
    }
  }

  /** The page name used for matching: the last segment, or `index.html` when it
      is empty. It is never empty and never holds a `/`. */
  function CurrentPage(pathname: string): (page: string)
    ensures page != []
    ensures Separator !in page
  {
    var name := PageName(pathname);
    if name == [] then DefaultPage else name
  }

  /** A pathname that ends in `/` (or is empty) selects `index.html`; any other
      selects the text after its last `/`. */
  lemma CurrentPageOfPath(pathname: string)
    ensures pathname == [] || pathname[|pathname| - 1] == Separator ==> CurrentPage(pathname) == DefaultPage
    ensures pathname != [] && pathname[|pathname| - 1] != Separator ==>
      CurrentPage(pathname) == PageName(pathname) && PageName(pathname) != []
  {
    PageNameIsAfterLastSlash(pathname);
  }

  /** The links after each one has been toggled against `page`. */
  function MarkActive(links: seq<NavLink>, page: string): (r: seq<NavLink>)
    ensures |r| == |links|
  {
    seq(|links|, i requires 0 <= i < |links| => links[i].(active := links[i].href == Some(page)))
  }

  /** Every link is updated: it is active iff its `href` is the page name, and
      nothing but the `active` class changes. */
  lemma MarkActiveIff(links: seq<NavLink>, page: string)
    ensures |MarkActive(links, page)| == |links|
    ensures forall i :: 0 <= i < |links| ==>
      (MarkActive(links, page)[i].active <==> links[i].href == Some(page))
    ensures forall i :: 0 <= i < |links| ==> MarkActive(links, page)[i].href == links[i].href
  {
  }

  /** Running the update again on the same page changes nothing. */
  lemma MarkActiveIdempotent(links: seq<NavLink>, page: string)
    ensures MarkActive(MarkActive(links, page), page) == MarkActive(links, page)
  {
  }

  /** `updateActiveNavLink`: toggles `active` on every `.nav-link` in order. */
  method UpdateActiveNavLink(links: array<NavLink>, pathname: string)
    modifies links
    ensures links[..] == MarkActive(old(links[..]), CurrentPage(pathname))
  {
    var page := CurrentPage(pathname);
    for i := 0 to links.Length
      invariant forall j :: 0 <= j < i ==>
        links[j] == old(links[j]).(active := old(links[j]).href == Some(page))
      invariant forall j :: i <= j < links.Length ==> links[j] == old(links[j])
    {
      var linkPage := links[i].href;
      links[i] := links[i].(active := linkPage == Some(page));
    }
  }
}
