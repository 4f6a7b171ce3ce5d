/** The tracker list of the torrent manager: the WebSocket-only sanitiser
    (`ws://` and `wss://` are the WebSocket URI schemes of section 3 of
    RFC 6455), the built-in defaults, and loading the list back from its
    stored JSON form. */
module Trackers {
  import opened Text
  import opened Dedup
  import opened Lists

  /** The four built-in WebRTC trackers. */
  const WebRtcTrackers: seq<string> := [
    "wss://tracker.openwebtorrent.com",
    "wss://tracker.webtorrent.io",
    "wss://tracker.btorrent.xyz",
    "wss://tracker.fastcast.nz"
  ]

  predicate IsWs(u: string) {
    StartsWith(u, "wss://") || StartsWith(u, "ws://")
  }

  /** A list the sanitiser leaves as it is: trimmed WebSocket URLs, each once. */
  predicate IsSanitized(l: seq<string>) {
    (forall i :: 0 <= i < |l| ==> IsWs(l[i]) && IsTrimmed(l[i]))
    && (forall i, j :: 0 <= i < j < |l| ==> l[i] != l[j])
  }

  /** Identity key: a `Set` of strings compares the strings themselves. */
  function Self(u: string): string { u }

  /** `list.map(s => s.trim())`. */
  function TrimAll(l: seq<string>): (r: seq<string>)
    ensures |r| == |l|
  {
    Map(Trim, l)
  }

  /** `.filter(isWs)`. */
  function KeepWs(l: seq<string>): (r: seq<string>)
    ensures |r| <= |l|
  {
    Filter(IsWs, l)
  }

  /** The trimmed WebSocket entries, in input order, duplicates included. */
  function Cleaned(l: seq<string>): seq<string> {
    KeepWs(TrimAll(l))
  }

  /** `sanitizeTrackers`: `Array.from(new Set(cleaned))`. */
  function Sanitize(l: seq<string>): seq<string> {
    DedupBy(Cleaned(l), Self)
  }

  lemma HasKeySelf(s: seq<string>, u: string)
    ensures HasKey(s, Self, u) <==> u in s
  {
    if u in s {
      var j :| 0 <= j < |s| && s[j] == u;
      assert Self(s[j]) == u;
    }
  }

  lemma DedupBySelfMembers(s: seq<string>, u: string)
    ensures u in DedupBy(s, Self) <==> u in s
  {
    DedupByKeys(s, Self, u);
    HasKeySelf(s, u);
    HasKeySelf(DedupBy(s, Self), u);
  }

  /** Every entry of the result is a trimmed WebSocket URL, and no entry repeats. */
  lemma SanitizeValid(l: seq<string>)
    ensures IsSanitized(Sanitize(l))
  {
    var c := Cleaned(l);
    var r := Sanitize(l);
    DedupByDistinct(c, Self);
    forall i | 0 <= i < |r|
      ensures IsWs(r[i]) && IsTrimmed(r[i])
    {
      DedupBySelfMembers(c, r[i]);
      FilterMembers(IsWs, TrimAll(l), r[i]);
      var j :| 0 <= j < |TrimAll(l)| && TrimAll(l)[j] == r[i];
      MapAt(Trim, l, j);
    }
  }

  /** A URL is kept exactly when some input entry trims to it and it is a WebSocket URL. */
  lemma SanitizeMembers(l: seq<string>, u: string)
    ensures u in Sanitize(l) <==> IsWs(u) && exists i :: 0 <= i < |l| && Trim(l[i]) == u
  {
    DedupBySelfMembers(Cleaned(l), u);
    FilterMembers(IsWs, TrimAll(l), u);
    MapMembers(Trim, l, u);
  }

  /** Kept URLs appear in the order of their first occurrence among the cleaned entries. */
  lemma SanitizeOrder(l: seq<string>)
    ensures var r := Sanitize(l);
      forall i, j :: 0 <= i < j < |r| ==>
        FirstIndexBy(Cleaned(l), Self, r[i]) < FirstIndexBy(Cleaned(l), Self, r[j])
  {
    var r := Sanitize(l);
    assert r == DedupBy(Cleaned(l), Self);
    DedupByOrder(Cleaned(l), Self);
    forall i, j | 0 <= i < j < |r|
      ensures FirstIndexBy(Cleaned(l), Self, r[i]) < FirstIndexBy(Cleaned(l), Self, r[j])
    {
      assert FirstIndexBy(Cleaned(l), Self, Self(r[i])) < FirstIndexBy(Cleaned(l), Self, Self(r[j]));
    }
  }

  lemma TrimAllOfTrimmed(l: seq<string>)
    requires forall i :: 0 <= i < |l| ==> IsTrimmed(l[i])
    ensures TrimAll(l) == l
  {
    forall i | 0 <= i < |l|
      ensures Trim(l[i]) == l[i]
    {
      TrimOfTrimmed(l[i]);
    }
    MapFixed(Trim, l);
  }

  lemma CleanedOfSanitized(l: seq<string>)
    requires forall i :: 0 <= i < |l| ==> IsWs(l[i]) && IsTrimmed(l[i])
    ensures Cleaned(l) == l
  {
    TrimAllOfTrimmed(l);
    FilterAll(IsWs, l);
  }

  /** A sanitised list is a fixed point of the sanitiser. */
  lemma SanitizeOfSanitized(l: seq<string>)
    requires IsSanitized(l)
    ensures Sanitize(l) == l
  {
    CleanedOfSanitized(l);
    DedupByOfDistinct(l, Self);
  }

  /** Sanitising twice is the same as sanitising once. */
  lemma SanitizeIdempotent(l: seq<string>)
    ensures Sanitize(Sanitize(l)) == Sanitize(l)
  {
    SanitizeValid(l);
    SanitizeOfSanitized(Sanitize(l));
  }

  /** A `wss://` URL ending in a letter is a trimmed WebSocket URL. */
  lemma WssUrl(u: string)
    requires 6 < |u| && u[..6] == "wss://" && 'a' <= u[|u| - 1] <= 'z'
    ensures IsWs(u) && IsTrimmed(u)
  {
    assert u[0] == u[..6][0] == 'w';
  }

  /** The defaults are already sanitised. */
  lemma DefaultsSanitized()
    ensures IsSanitized(WebRtcTrackers)
  {
    var l := WebRtcTrackers;
    WssUrl(l[0]);
    WssUrl(l[1]);
    WssUrl(l[2]);
    WssUrl(l[3]);
    // the host names differ in their first letter after `tracker.`
    assert l[0][14] == 'o' && l[1][14] == 'w' && l[2][14] == 'b' && l[3][14] == 'f';
  }

  /** Merging a sanitised list `c` in front of another list keeps `c` intact at the
      front and adds exactly the other list's WebSocket entries that are new. */
  lemma SanitizeMerge(c: seq<string>, a: seq<string>)
    requires IsSanitized(c)
    ensures var m := Sanitize(c + a);
      |c| <= |m| && m[..|c|] == c
    ensures forall u :: u in Sanitize(c + a) <==> u in c || u in Sanitize(a)
  {
    MapAppend(Trim, c, a);
    FilterAppend(IsWs, TrimAll(c), TrimAll(a));
    CleanedOfSanitized(c);
    assert Cleaned(c + a) == c + Cleaned(a);
    DedupByPrefix(c, Cleaned(a), Self);
    DedupByOfDistinct(c, Self);
    forall u
      ensures u in Sanitize(c + a) <==> u in c || u in Sanitize(a)
    {
      DedupBySelfMembers(c + Cleaned(a), u);
      DedupBySelfMembers(Cleaned(a), u);
    }
  }

  /** The sanitiser keeps a `ws://` URL next to the `wss://` URL of the same host,
      and drops the repeat. */
  lemma SanitizeKeepsBothSchemes(host: string)
    requires host == [] || !IsSpace(host[|host| - 1])
    ensures var w := "wss://" + host;
      Sanitize([w, "ws://" + host, w]) == [w, "ws://" + host]
  {
    var w := "wss://" + host;
    var v := "ws://" + host;
    SchemeUrls(host);
    CleanedOfSanitized([w, v, w]);
    DedupRepeat(w, v);
  }

  lemma DedupRepeat(w: string, v: string)
    requires w != v
    ensures DedupBy([w, v, w], Self) == [w, v]
  {
    var p := [w, v];
    assert [w, v, w] == p + [w];
    DedupBySnoc(p, w, Self);
    assert HasKey(p, Self, Self(w)) by { assert Self(p[0]) == Self(w); }
    DedupByOfDistinct(p, Self);
  }

  lemma SchemeUrls(host: string)
    requires host == [] || !IsSpace(host[|host| - 1])
    ensures var w := "wss://" + host;
      var v := "ws://" + host;
      IsWs(w) && IsTrimmed(w) && IsWs(v) && IsTrimmed(v) && w != v
  {
    var w := "wss://" + host;
    var v := "ws://" + host;
    assert w[..6] == "wss://" && v[..5] == "ws://";
    assert w[0] == 'w' && v[0] == 'w';
    assert w[|w| - 1] == if host == [] then '/' else host[|host| - 1];
    assert v[|v| - 1] == if host == [] then '/' else host[|host| - 1];
    assert w[2] != v[2];
  }

  // ---------------------------------------------------------------------
  // The stored form: `localStorage['fontorrent.trackers']`, after JSON.parse.

  /** One element of a parsed JSON array: a string or anything else. */
  datatype Item = Str(s: string) | NonStr

  /** What reading the storage key yields: nothing (missing or empty), text that
      does not parse, a parsed non-array, or a parsed array. */
  datatype Stored = NotStored | Unparsable | NonArray | ArrayOf(items: seq<Item>)

  predicate AllStrings(items: seq<Item>) {
    forall i :: 0 <= i < |items| ==> items[i].Str?
  }

  function Strings(items: seq<Item>): (r: seq<string>)
    requires AllStrings(items)
    ensures |r| == |items| && forall i :: 0 <= i < |items| ==> r[i] == items[i].s
  {
    if items == [] then [] else Strings(items[..|items| - 1]) + [items[|items| - 1].s]
  }

  /** `JSON.stringify(list)` as stored by `persistTrackers`: an array of the
      strings, in order. */
  function Persisted(l: seq<string>): (st: Stored)
    ensures st.ArrayOf? && |st.items| == |l|
  {
    ArrayOf(Items(l))
  }

  function Items(l: seq<string>): (items: seq<Item>)
    ensures |items| == |l|
  {
    if l == [] then [] else Items(l[..|l| - 1]) + [Str(l[|l| - 1])]
  }

  /** Parsing what was stored gives back an array of exactly those strings. */
  lemma {:induction false} PersistedStrings(l: seq<string>)
    ensures AllStrings(Persisted(l).items) && Strings(Persisted(l).items) == l
  {
    if l != [] {
      var init := l[..|l| - 1];
      PersistedStrings(init);
      var items := Items(l);
      assert items[..|items| - 1] == Items(init);
      assert items == Items(init) + [Str(l[|l| - 1])];
    }
  }

  /** `loadTrackers`: the sanitised array when the stored value is an array of
      strings; otherwise (nothing stored, a parse error, a non-array, or a
      non-string element whose `trim` throws) a copy of the defaults. */
  function LoadTrackers(st: Stored): seq<string> {
    if st.ArrayOf? && AllStrings(st.items) then Sanitize(Strings(st.items))
    else WebRtcTrackers
  }

  /** Whatever is stored, the loaded list is sanitised. */
  lemma LoadTrackersSanitized(st: Stored)
    ensures IsSanitized(LoadTrackers(st))
  {
    if st.ArrayOf? && AllStrings(st.items) {
      SanitizeValid(Strings(st.items));
    } else {
      DefaultsSanitized();
    }
  }

  /** Loading what was persisted gives back the same sanitised list. */
  lemma LoadPersisted(l: seq<string>)
    requires IsSanitized(l)
    ensures LoadTrackers(Persisted(l)) == l
  {
    PersistedStrings(l);
    SanitizeOfSanitized(l);
  }

  /** Every loaded URL is one of the defaults or the trimmed text of a string
      that was stored; the defaults are used only when the stored value is
      not an array of strings. */
  lemma LoadTrackersSources(st: Stored, u: string)
    requires u in LoadTrackers(st)
    ensures u in WebRtcTrackers || (st.ArrayOf? && exists i :: 0 <= i < |st.items| && st.items[i].Str? && Trim(st.items[i].s) == u)
    ensures st.ArrayOf? && AllStrings(st.items) ==>
      IsWs(u) && exists i :: 0 <= i < |st.items| && Trim(st.items[i].s) == u
  {
    if st.ArrayOf? && AllStrings(st.items) {
      var l := Strings(st.items);
      SanitizeMembers(l, u);
      var i :| 0 <= i < |l| && Trim(l[i]) == u;
      assert st.items[i].Str? && Trim(st.items[i].s) == u;
    }
  }

  /** The loaded list may be empty: an array of strings none of which trims to a
      WebSocket URL loads as `[]`, not as the defaults. */
  lemma LoadTrackersMayBeEmpty(items: seq<Item>)
    requires AllStrings(items)
    requires forall i :: 0 <= i < |items| ==> !IsWs(Trim(items[i].s))
    ensures LoadTrackers(ArrayOf(items)) == []
  {
    var l := Strings(items);
    var t := TrimAll(l);
    forall i | 0 <= i < |t|
      ensures !IsWs(t[i])
    {
      MapAt(Trim, l, i);
    }
    FilterNone(IsWs, t);
  }

  /** A non-string element anywhere makes the whole array fall back to the
      defaults, whatever the other elements are. */
  lemma LoadTrackersNonString(items: seq<Item>)
    requires exists i :: 0 <= i < |items| && items[i].NonStr?
    ensures LoadTrackers(ArrayOf(items)) == WebRtcTrackers
  {
    var i :| 0 <= i < |items| && items[i].NonStr?;
    assert !AllStrings(items);
  }
}
