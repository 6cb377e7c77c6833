/** The `clean_html` transform of src/handbook_scraper.py: the page content
    of a handbook entry, a JSON value, is walked recursively; strings that
    look like markup are replaced by their text, and `None`/`""` members of
    dicts and lists are dropped. The markup-to-text step is the parameter
    `extract`. */
module HandbookScraper {
  import opened Common

  /** A value `json.loads` produces. A dict is its members in insertion
      order. */
  datatype Json =
    | Null
    | Str(s: string)
    | Num(n: real)
    | Bool(b: bool)
    | Obj(members: seq<(string, Json)>)
    | Arr(items: seq<Json>)

  /** A missing value or the empty string: the members a container drops. */
  predicate Dropped(v: Json)
  {
    v == Null || v == Str("")
  }

  predicate Kept(v: Json)
  {
    !Dropped(v)
  }

  predicate KeptMember(m: (string, Json))
  {
    !Dropped(m.1)
  }

  /** A string is treated as markup when it has both a `<` and a `>`. */
  predicate LooksLikeMarkup(s: string)
  {
    '<' in s && '>' in s
  }

  function Keys(ms: seq<(string, Json)>): seq<string>
  {
    if ms == [] then [] else [ms[0].0] + Keys(ms[1..])
  }

  /** Unique keys stay unique without the first member, whose key is not
      among the others. */
  lemma KeysTail(ms: seq<(string, Json)>)
    requires ms != [] && NoDuplicates(Keys(ms))
    ensures NoDuplicates(Keys(ms[1..])) && ms[0].0 !in Keys(ms[1..])
  {
    var tail := Keys(ms[1..]);
    assert Keys(ms) == [ms[0].0] + tail && Keys(ms)[0] == ms[0].0;
    forall i | 0 <= i < |tail| ensures tail[i] != ms[0].0 && tail[i] == Keys(ms)[i + 1] {
      assert Keys(ms)[i + 1] == tail[i];
    }
  }

  /** `clean_html(value)`. */
  function CleanHtml(v: Json, extract: string -> string): (r: Json)
    ensures r.Str? <==> v.Str?
    ensures r.Obj? <==> v.Obj?
    ensures r.Arr? <==> v.Arr?
    ensures v.Str? && !LooksLikeMarkup(v.s) ==> r == v
    ensures v.Str? && LooksLikeMarkup(v.s) ==> r == Str(extract(v.s))
    ensures v.Null? || v.Num? || v.Bool? ==> r == v
    ensures v.Obj? ==> |r.members| <= |v.members|
    ensures v.Arr? ==> |r.items| <= |v.items|
    decreases v
  {
    match v
    case Str(s) => if LooksLikeMarkup(s) then Str(extract(s)) else v
    case Obj(ms) => Obj(CleanMembers(ms, extract))
    case Arr(xs) => Arr(CleanItems(xs, extract))
    case _ => v
  }

  /** The list comprehension of `clean_html`: the kept elements, cleaned. */
  function CleanItems(xs: seq<Json>, extract: string -> string): (r: seq<Json>)
    ensures |r| <= |xs|
    ensures forall i :: 0 <= i < |r| ==> r[i] != Null
    decreases xs
  {
    if xs == [] then []
    else
      var rest := CleanItems(xs[1..], extract);
      if Dropped(xs[0]) then rest else [CleanHtml(xs[0], extract)] + rest
  }

  /** The dict comprehension of `clean_html`: the kept members, their
      values cleaned. Keys are never added, so a dict stays a dict. */
  function CleanMembers(ms: seq<(string, Json)>, extract: string -> string): (r: seq<(string, Json)>)
    ensures |r| <= |ms|
    ensures forall i :: 0 <= i < |r| ==> r[i].1 != Null
    ensures forall k :: k in Keys(r) ==> k in Keys(ms)
    ensures NoDuplicates(Keys(ms)) ==> NoDuplicates(Keys(r))
    decreases ms
  {
    if ms == [] then []
    else
      var rest := CleanMembers(ms[1..], extract);
      var (key, value) := ms[0];
      assert ms[0] in ms && ms[0].1 < ms[0];
      assert NoDuplicates(Keys(ms)) ==> NoDuplicates(Keys(ms[1..])) && key !in Keys(ms[1..]) by {
        if NoDuplicates(Keys(ms)) { KeysTail(ms); }
      }
      if Dropped(value) then rest
      else
        var r := [(key, CleanHtml(value, extract))] + rest;
        assert Keys(r) == [key] + Keys(rest);
        r
  }

  // ---------------------------------------------------------------------
  // Reference definitions: the kept members, then the cleaning.

  /** The elements of `xs` that `keep` accepts, in order. */
  function Filter<T(!new)>(xs: seq<T>, keep: T -> bool): (r: seq<T>)
    ensures |r| <= |xs|
    ensures forall x :: x in r <==> x in xs && keep(x)
  {
    if xs == [] then []
    else
      var rest := Filter(xs[1..], keep);
      assert forall x :: x in xs <==> x == xs[0] || x in xs[1..];
      if keep(xs[0]) then [xs[0]] + rest else rest
  }

  /** A list keeps, in order, the cleaned versions of exactly the elements
      that are neither `None` nor `""`. */
  lemma {:induction false} CleanItemsFilterMap(xs: seq<Json>, extract: string -> string)
    ensures var kept := Filter(xs, Kept);
      var r := CleanItems(xs, extract);
      |r| == |kept| && forall i :: 0 <= i < |r| ==> r[i] == CleanHtml(kept[i], extract)
    decreases |xs|
  {
    if xs != [] {
      CleanItemsFilterMap(xs[1..], extract);
    }
  }

  /** A dict keeps, in order, exactly the members whose value is neither
      `None` nor `""`, each with its value cleaned. */
  lemma {:induction false} CleanMembersFilterMap(ms: seq<(string, Json)>, extract: string -> string)
    ensures var kept := Filter(ms, KeptMember);
      var r := CleanMembers(ms, extract);
      |r| == |kept| &&
      forall i :: 0 <= i < |r| ==> r[i] == (kept[i].0, CleanHtml(kept[i].1, extract))
    decreases |ms|
  {
    if ms != [] {
      CleanMembersFilterMap(ms[1..], extract);
      var r, kept := CleanMembers(ms, extract), Filter(ms, KeptMember);
      var r', kept' := CleanMembers(ms[1..], extract), Filter(ms[1..], KeptMember);
      if KeptMember(ms[0]) {
        assert r == [(ms[0].0, CleanHtml(ms[0].1, extract))] + r';
        assert kept == [ms[0]] + kept';
        forall i | 0 < i < |r| ensures r[i] == (kept[i].0, CleanHtml(kept[i].1, extract)) {
          assert r[i] == r'[i - 1] && kept[i] == kept'[i - 1];
        }
      }
    }
  }

  /** The value stored under `k`: the first member with that key. */
  function Get(ms: seq<(string, Json)>, k: string): Option<Json>
  {
    if ms == [] then None
    else if ms[0].0 == k then Some(ms[0].1)
    else Get(ms[1..], k)
  }

  /** A dict keeps exactly the keys whose value is neither `None` nor `""`,
      each mapped to its cleaned value. */
  lemma {:induction false} CleanMembersGet(ms: seq<(string, Json)>, k: string, extract: string -> string)
    requires NoDuplicates(Keys(ms))
    ensures Get(CleanMembers(ms, extract), k) ==
      match Get(ms, k)
      case None => None
      case Some(v) => if Dropped(v) then None else Some(CleanHtml(v, extract))
    decreases |ms|
  {
    if ms != [] {
      var rest := CleanMembers(ms[1..], extract);
      KeysTail(ms);
      CleanMembersGet(ms[1..], k, extract);
      if ms[0].0 == k {
        GetMissing(rest, k);
      }
    }
  }

  lemma {:induction false} GetMissing(ms: seq<(string, Json)>, k: string)
    requires k !in Keys(ms)
    ensures Get(ms, k) == None
    decreases |ms|
  {
    if ms != [] {
      assert Keys(ms) == [ms[0].0] + Keys(ms[1..]);
      GetMissing(ms[1..], k);
    }
  }

  // ---------------------------------------------------------------------
  // Properties of the whole transform.

  /** No container in the value holds a `None`, at any depth. */
  ghost predicate NullFree(v: Json)
    decreases v
  {
    match v
    case Obj(ms) => forall i :: 0 <= i < |ms| ==> ms[i].1 != Null && NullFree(ms[i].1)
    case Arr(xs) => forall i :: 0 <= i < |xs| ==> xs[i] != Null && NullFree(xs[i])
    case _ => true
  }

  /** After cleaning, no container holds a `None`, however deep. */
  lemma {:induction false} CleanHtmlNullFree(v: Json, extract: string -> string)
    ensures NullFree(CleanHtml(v, extract))
    decreases v
  {
    match v
    case Obj(ms) => CleanMembersNullFree(ms, extract);
    case Arr(xs) => CleanItemsNullFree(xs, extract);
    case _ =>
  }

  lemma {:induction false} CleanItemsNullFree(xs: seq<Json>, extract: string -> string)
    ensures forall i :: 0 <= i < |CleanItems(xs, extract)| ==> NullFree(CleanItems(xs, extract)[i])
    decreases xs
  {
    if xs != [] {
      CleanItemsNullFree(xs[1..], extract);
      if !Dropped(xs[0]) {
        CleanHtmlNullFree(xs[0], extract);
      }
    }
  }

  lemma {:induction false} CleanMembersNullFree(ms: seq<(string, Json)>, extract: string -> string)
    ensures forall i :: 0 <= i < |CleanMembers(ms, extract)| ==> NullFree(CleanMembers(ms, extract)[i].1)
    decreases ms
  {
    if ms != [] {
      CleanMembersNullFree(ms[1..], extract);
      var (key, value) := ms[0];
      assert ms[0] in ms && ms[0].1 < ms[0];
      if !Dropped(value) {
        CleanHtmlNullFree(value, extract);
      }
    }
  }

  /** Members are filtered on their value before cleaning: a list emptied
      by the cleaning is still kept. */
  lemma EmptiedListKept(extract: string -> string)
    ensures CleanHtml(Arr([Arr([Null])]), extract) == Arr([Arr([])])
  {
    assert [Null][1..] == [];
    assert [Arr([Null])][1..] == [];
  }

  /** A markup string whose text is empty is kept, as "". */
  lemma EmptiedStringKept(extract: string -> string)
    requires extract("<br>") == ""
    ensures CleanHtml(Arr([Str("<br>")]), extract) == Arr([Str("")])
  {
    assert LooksLikeMarkup("<br>") by { assert "<br>"[0] == '<' && "<br>"[3] == '>'; }
    assert [Str("<br>")][1..] == [];
  }
}
