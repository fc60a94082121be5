/** What path strings and subscribed paths stand for, on the elements of the paths. */
module PathMeaning {
  import opened DataTree
  import opened EventModel
  import opened TelemetryModel
  import opened Replica

  // ----- Path strings -------------------------------------------------------------------

  /** A name has no separators, and keys are in brackets that do not close before a slash. */
  predicate ProperElem(e: Elem) {
    && '/' !in e.name && '[' !in e.name
    && (e.keys == "" ||
        (&& e.keys[0] == '[' && e.keys[|e.keys| - 1] == ']'
         && forall i | 0 < i < |e.keys| :: e.keys[i] == '/' ==> e.keys[i - 1] != ']'))
  }

  predicate ProperPath(p: Path) {
    forall i | 0 <= i < |p| :: ProperElem(p[i])
  }

  function Text(e: Elem): string {
    e.name + e.keys
  }

  lemma {:induction false} RenderSnoc(p: Path, e: Elem, t: string)
    requires Render(p) == t
    ensures Render(p + [e]) == t + ("/" + e.name + e.keys)
  {
    assert (p + [e])[..|p|] == p;
  }

  /** A path string in the form the server prints it. */
  lemma {:induction false} RenderExample()
    ensures Render([Elem("interfaces", ""), Elem("interface", "[name=p1]"), Elem("state", "")]) ==
            "/interfaces" + "/interface[name=p1]" + "/state"
  {
    var a, b, c := Elem("interfaces", ""), Elem("interface", "[name=p1]"), Elem("state", "");
    RenderNothing();
    hide Render;
    assert [] + [a] == [a] && [a] + [b] == [a, b] && [a, b] + [c] == [a, b, c];
    RenderSnoc([], a, "");
    assert "" + ("/" + "interfaces" + "") == "/interfaces";
    RenderSnoc([a], b, "/interfaces");
    assert "/" + "interface" + "[name=p1]" == "/interface[name=p1]";
    RenderSnoc([a, b], c, "/interfaces" + "/interface[name=p1]");
    assert "/" + "state" + "" == "/state";
  }

  /** The path of its schema. */
  lemma {:induction false} StripExample()
    ensures Strip([Elem("interfaces", ""), Elem("interface", "[name=p1]"), Elem("state", "")]) ==
            [Elem("interfaces", ""), Elem("interface", ""), Elem("state", "")]
  {
  }

  lemma RenderNothing()
    ensures Render([]) == ""
  {
  }

  lemma {:induction false} RenderCons(p: Path)
    requires p != []
    ensures Render(p) == "/" + (Text(p[0]) + Render(p[1..]))
    decreases |p|
  {
    hide Render, Text;
    var n := |p| - 1;
    RenderLast(p);
    RenderNothing();
    if n == 0 {
      assert p[..0] == [] && p[1..] == [];
      Regroup(Text(p[0]), "", "");
    } else {
      RenderCons(p[..n]);
      assert p[..n][1..] == p[1..][..n - 1] && p[..n][0] == p[0];
      RenderLast(p[1..]);
      Regroup(Text(p[0]), Render(p[..n][1..]), "/" + Text(p[n]));
    }
  }

  lemma {:induction false} RenderLast(p: Path)
    requires p != []
    ensures Render(p) == Render(p[..|p| - 1]) + ("/" + Text(p[|p| - 1]))
  {
    var e := p[|p| - 1];
    assert "/" + e.name + e.keys == "/" + (e.name + e.keys);
  }

  lemma Regroup(a: string, b: string, c: string)
    ensures ("/" + (a + b)) + c == "/" + (a + (b + c))
    ensures "" + ("/" + a) == "/" + (a + "")
  {
  }

  lemma RenderStarts(p: Path)
    ensures Render(p) == "" <==> p == []
    ensures p != [] ==> Render(p)[0] == '/'
  {
    if p != [] {
      RenderCons(p);
    }
  }

  /** Where the separators are in the text of an element. */
  lemma TextChars(e: Elem)
    requires ProperElem(e)
    ensures forall i | 0 <= i < |e.name| :: Text(e)[i] != '/' && Text(e)[i] != '['
    ensures e.keys != "" ==> Text(e)[|e.name|] == '[' && Text(e)[|Text(e)| - 1] == ']'
    ensures forall i | 0 < i < |Text(e)| :: Text(e)[i] == '/' ==> i > |e.name| && Text(e)[i - 1] != ']'
    ensures |Text(e)| > 0 ==> Text(e)[0] != '/'
  {
    forall i | 0 <= i < |e.name|
      ensures Text(e)[i] == e.name[i]
    {
    }
    forall i | |e.name| <= i < |Text(e)|
      ensures Text(e)[i] == e.keys[i - |e.name|]
    {
    }
  }

  /** Where the text of one element ends, a longer one does not go on with a slash. */
  lemma NoSlashAfter(a: Elem, b: Elem)
    requires ProperElem(a) && ProperElem(b) && |Text(a)| < |Text(b)| && Text(a) <= Text(b)
    ensures Text(b)[|Text(a)|] != '/'
  {
    TextChars(a);
    TextChars(b);
    hide ProperElem, Text;
    if |Text(a)| > 0 {
      assert Text(b)[|Text(a)| - 1] == Text(a)[|Text(a)| - 1];
    }
    if a.keys == "" {
      TextOfName(a);
      SharedChars(a, b);
    }
  }

  lemma TextOfName(e: Elem)
    requires e.keys == ""
    ensures Text(e) == e.name
  {
  }

  lemma SharedChars(a: Elem, b: Elem)
    requires Text(a) <= Text(b)
    ensures forall i | 0 <= i < |Text(a)| :: Text(a)[i] == Text(b)[i]
    ensures |b.name| <= |Text(b)|
    ensures b.keys == "" ==> Text(b) == b.name
  {
  }

  /** One text is a prefix of another: if the first has keys, the names are the same. */
  lemma SameName(a: Elem, b: Elem)
    requires ProperElem(a) && ProperElem(b) && Text(a) <= Text(b) && a.keys != ""
    ensures |a.name| == |b.name|
  {
    TextChars(a);
    TextChars(b);
    SharedChars(a, b);
    SharedChars(b, b);
    assert Text(b)[|a.name|] == '[';
  }

  lemma SameText(a: Elem, b: Elem)
    requires ProperElem(a) && ProperElem(b) && Text(a) == Text(b)
    ensures a == b
  {
    if a.keys != "" {
      SameName(a, b);
    } else if b.keys != "" {
      SameName(b, a);
    }
    assert a.name == Text(a)[..|a.name|] && b.name == Text(b)[..|b.name|];
    assert a.keys == Text(a)[|a.name|..] && b.keys == Text(b)[|b.name|..];
  }

  predicate Tail(x: string) {
    x == "" || x[0] == '/'
  }

  /** The text of the shorter string's first element is not the longer one. */
  lemma NotLonger(a: Elem, x: string, b: Elem, y: string)
    requires ProperElem(a) && ProperElem(b) && Tail(y) && Text(a) + x <= Text(b) + y
    ensures |Text(a)| <= |Text(b)|
  {
    var s, t := Text(a) + x, Text(b) + y;
    var n := |Text(b)|;
    if n < |Text(a)| {
      assert s[n] == t[n] && s[n] == Text(a)[n] && t[n] == y[0];
      assert Text(b) == t[..n] && s[..n] == t[..n] && Text(a)[..n] == s[..n];
      NoSlashAfter(b, a);
    }
  }

  /** Something follows the first element: then it is the first element of both. */
  lemma NotShorter(a: Elem, x: string, b: Elem, y: string)
    requires ProperElem(a) && ProperElem(b) && Tail(x) && x != "" && Text(a) + x <= Text(b) + y
    ensures |Text(a)| >= |Text(b)|
  {
    var s, t := Text(a) + x, Text(b) + y;
    var m := |Text(a)|;
    if m < |Text(b)| {
      assert s[m] == t[m] && s[m] == x[0] && t[m] == Text(b)[m];
      assert Text(a) == s[..m] && s[..m] == t[..m] && Text(b)[..m] == t[..m];
      NoSlashAfter(a, b);
    }
  }

  /** The first elements of two strings of which one is a prefix of the other. */
  lemma FirstElements(a: Elem, x: string, b: Elem, y: string)
    requires ProperElem(a) && ProperElem(b) && Tail(x) && Tail(y)
    ensures Text(a) + x <= Text(b) + y <==> (x == "" && Text(a) <= Text(b)) || (a == b && x <= y)
  {
    hide ProperElem, Text;
    var s, t := Text(a) + x, Text(b) + y;
    var m := |Text(a)|;
    if a == b && x <= y {
      assert t == s + y[|x|..];
    }
    if x == "" && Text(a) <= Text(b) {
      assert s == Text(a) && s <= Text(b) <= t;
    }
    if s <= t {
      NotLonger(a, x, b, y);
      assert Text(a) == s[..m] == t[..m] == Text(b)[..m];
      if x != "" {
        NotShorter(a, x, b, y);
        SameText(a, b);
        assert x == s[m..] && y == t[m..];
        assert s[m..] == t[m..|s|] == t[m..][..|x|];
      }
    }
  }

  /** One path string is a prefix of another: the paths agree up to the last element of the
      first, and there its text is a prefix. */
  predicate TextPrefix(p: Path, q: Path) {
    p == [] ||
    (&& |p| <= |q| && p[..|p| - 1] == q[..|p| - 1]
     && Text(p[|p| - 1]) <= Text(q[|p| - 1]))
  }

  lemma {:induction false} RenderPrefixExactly(p: Path, q: Path)
    requires ProperPath(p) && ProperPath(q)
    ensures Render(p) <= Render(q) <==> TextPrefix(p, q)
    decreases |p|
  {
    hide Render, TextPrefix, Text, ProperElem;
    RenderStarts(p);
    RenderStarts(q);
    if p == [] || q == [] {
      TextPrefixEnds(p, q);
    } else {
      RenderPrefixExactly(p[1..], q[1..]);
      RenderFirst(p, q);
      RenderStarts(p[1..]);
      TextPrefixCons(p, q);
    }
  }

  lemma TextPrefixEnds(p: Path, q: Path)
    requires p == [] || q == []
    ensures TextPrefix(p, q) <==> p == []
  {
  }

  lemma RenderFirst(p: Path, q: Path)
    requires p != [] && q != [] && ProperPath(p) && ProperPath(q)
    ensures Render(p) <= Render(q) <==>
            || (Render(p[1..]) == "" && Text(p[0]) <= Text(q[0]))
            || (p[0] == q[0] && Render(p[1..]) <= Render(q[1..]))
  {
    hide Render, Text, ProperElem;
    RenderCons(p);
    RenderCons(q);
    RenderStarts(p[1..]);
    RenderStarts(q[1..]);
    SlashedElements(p[0], Render(p[1..]), q[0], Render(q[1..]));
  }

  lemma SlashedElements(a: Elem, x: string, b: Elem, y: string)
    requires ProperElem(a) && ProperElem(b) && Tail(x) && Tail(y)
    ensures "/" + (Text(a) + x) <= "/" + (Text(b) + y) <==> (x == "" && Text(a) <= Text(b)) || (a == b && x <= y)
  {
    hide Text, ProperElem, Tail;
    PrefixedAlike(Text(a) + x, Text(b) + y);
    FirstElements(a, x, b, y);
  }

  lemma PrefixedAlike(s: string, t: string)
    ensures "/" + s <= "/" + t <==> s <= t
  {
    if "/" + s <= "/" + t {
      assert forall i | 0 <= i < |s| :: s[i] == ("/" + s)[i + 1] == ("/" + t)[i + 1] == t[i];
    }
  }

  lemma TextPrefixCons(p: Path, q: Path)
    requires p != [] && q != []
    ensures TextPrefix(p, q) <==>
            if |p| == 1 then Text(p[0]) <= Text(q[0]) else p[0] == q[0] && TextPrefix(p[1..], q[1..])
  {
    if |p| > 1 && |p| <= |q| {
      var n := |p| - 1;
      assert p[1..][..n - 1] == p[1..n] && q[1..][..n - 1] == q[1..n];
      assert p[..n] == [p[0]] + p[1..n] && q[..n] == [q[0]] + q[1..n];
    }
  }

  /** No two paths have one string. */
  lemma RenderInjective(p: Path, q: Path)
    requires ProperPath(p) && ProperPath(q) && Render(p) == Render(q)
    ensures p == q
  {
    RenderPrefixExactly(p, q);
    RenderPrefixExactly(q, p);
    if p != [] && q != [] {
      var n := |p| - 1;
      SameText(p[n], q[n]);
      assert p == p[..n] + [p[n]] && q == q[..n] + [q[n]];
    }
  }

  // ----- Who hears what -----------------------------------------------------------------

  lemma StripIsProper(p: Path)
    requires ProperPath(p)
    ensures ProperPath(Strip(p))
  {
  }

  /** A receiver registered at one path hears, of the paths and schema paths, exactly those that
      go on where its own ends, be it in the middle of a name. */
  lemma HeardExactly(p: Path, k: Path)
    requires ProperPath(p) && ProperPath(k)
    ensures Deliveries({Render(p)}, k) > 0 <==> TextPrefix(p, k) || TextPrefix(p, Strip(k))
  {
    HeardIff(Render(p), k);
    StripIsProper(k);
    RenderPrefixExactly(p, k);
    RenderPrefixExactly(p, Strip(k));
  }

  /** A receiver registered at a list entry hears that entry and what is below it, and of the same
      list no other entry, unless the keys of that one go on where its own end. */
  lemma EntryHeardExactly(p: Path, k: Path)
    requires ProperPath(p) && ProperPath(k) && p != [] && p[|p| - 1].keys != ""
    ensures Deliveries({Render(p)}, k) > 0 <==>
            var n := |p| - 1;
            && |p| <= |k| && k[..n] == p[..n] && k[n].name == p[n].name && p[n].keys <= k[n].keys
  {
    var n := |p| - 1;
    hide Deliveries, Render, ProperElem, Text;
    HeardExactly(p, k);
    if |p| <= |k| {
      KeyedText(p[n], k[n]);
      StripIsProper(k);
      KeyedText(p[n], Strip(k)[n]);
    }
  }

  /** So when the entries of a list have their keys written alike, it hears exactly its own node
      and what is below. */
  lemma OwnEntryHeardExactly(p: Path, k: Path)
    requires ProperPath(p) && ProperPath(k) && p != [] && p[|p| - 1].keys != ""
    requires |p| <= |k| ==> |k[|p| - 1].keys| <= |p[|p| - 1].keys|
    ensures Deliveries({Render(p)}, k) > 0 <==> |p| <= |k| && k[..|p|] == p
  {
    hide Deliveries, Render, ProperElem;
    EntryHeardExactly(p, k);
    if |p| <= |k| {
      var n := |p| - 1;
      assert k[..|p|] == k[..n] + [k[n]] && p == p[..n] + [p[n]];
      assert k[..|p|][..n] == k[..n] && k[..|p|][n] == k[n];
      assert p[n].keys <= k[n].keys ==> p[n].keys == k[n].keys;
    }
  }

  /** The text of a list entry is a prefix of that of another element: one list, and the keys go on. */
  lemma KeyedText(a: Elem, b: Elem)
    requires ProperElem(a) && ProperElem(b) && a.keys != ""
    ensures Text(a) <= Text(b) <==> a.name == b.name && a.keys <= b.keys
  {
    hide ProperElem;
    if Text(a) <= Text(b) {
      SameName(a, b);
    }
    if |a.name| == |b.name| {
      AlignedPrefix(a.name, a.keys, b.name, b.keys);
    }
  }

  lemma AlignedPrefix(x: string, u: string, y: string, v: string)
    requires |x| == |y|
    ensures x + u <= y + v <==> x == y && u <= v
  {
    if x + u <= y + v {
      assert forall i | 0 <= i < |x| :: x[i] == (x + u)[i] == (y + v)[i] == y[i];
      assert forall i | 0 <= i < |u| :: u[i] == (x + u)[|x| + i] == (y + v)[|x| + i] == v[i];
    }
  }

  /** Two entries of one list: a receiver at the one hears its own events and none of the other. */
  lemma SiblingExample()
    ensures var one, two := [Elem("i", "[n=a]")], [Elem("i", "[n=b]")];
      && Deliveries({"/i[n=a]"}, one) == 1 && Deliveries({"/i[n=a]"}, two) == 0 && Deliveries({"/i"}, two) == 2
  {
    var one, two, list := [Elem("i", "[n=a]")], [Elem("i", "[n=b]")], [Elem("i", "")];
    assert one[..0] == [] && two[..0] == [] && list[..0] == [];
    assert Render(one) == "/i[n=a]" && Render(two) == "/i[n=b]" && Render(list) == "/i";
    assert Strip(one) == list && Strip(two) == list;
    assert InList(one) && InList(two) by {
      assert one[0].keys != "" && two[0].keys != "";
    }
    assert "/i[n=a]"[5] != "/i[n=b]"[5];
    HitsOne("/i[n=a]", "/i[n=a]");
    HitsOne("/i[n=a]", "/i[n=b]");
    HitsOne("/i[n=a]", "/i");
    HitsOne("/i", "/i[n=b]");
    HitsOne("/i", "/i");
  }

  /** Keys whose brackets close before a slash make path strings ambiguous. */
  lemma UnproperAmbiguous()
    ensures var p, q := [Elem("i", "[n=a]/j[m=b]")], [Elem("i", "[n=a]"), Elem("j", "[m=b]")];
      p != q && Render(p) == Render(q)
  {
    var a, b := Elem("i", "[n=a]"), Elem("j", "[m=b]");
    var whole := Elem("i", "[n=a]/j[m=b]");
    RenderNothing();
    hide Render;
    assert [] + [whole] == [whole] && [] + [a] == [a] && [a] + [b] == [a, b];
    RenderSnoc([], whole, "");
    RenderSnoc([], a, "");
    RenderSnoc([a], b, "" + ("/" + a.name + a.keys));
    assert "" + ("/" + a.name + a.keys) == "/i[n=a]" && "/" + b.name + b.keys == "/j[m=b]";
    assert "" + ("/" + whole.name + whole.keys) == "/i[n=a]/j[m=b]" == "/i[n=a]" + "/j[m=b]";
  }

  // ----- What a subscribed path selects -------------------------------------------------

  /** The same names, one by one. */
  predicate NamesLead(p: Path, k: Path) {
    |p| <= |k| && forall i | 0 <= i < |p| :: k[i].name == p[i].name
  }

  predicate NoKeys(p: Path) {
    forall i | 0 <= i < |p| :: p[i].keys == ""
  }

  /** A path without list keys selects every node with its names, in whatever list entries, and
      what is below. */
  lemma OpenPathSelects(p: Path, k: Path)
    requires NoKeys(p)
    ensures Selects(Subscription([], [p]), k) <==> NamesLead(p, k)
  {
    var sub := Subscription([], [p]);
    assert k[0..] == k && sub.paths[0] == p;
    assert Selects(sub, k) <==> Covers(p, k);
    if NamesLead(p, k) {
      assert forall i | 0 <= i < |p| :: p[i] == Elem(p[i].name, "") == Strip(k)[i];
      assert p == Strip(k)[..|p|];
    }
  }

  /** A path with list keys selects its node and what is below. */
  lemma KeyedPathSelects(p: Path, k: Path)
    requires !NoKeys(p)
    ensures Selects(Subscription([], [p]), k) <==> |p| <= |k| && k[..|p|] == p
  {
    var sub := Subscription([], [p]);
    assert k[0..] == k && sub.paths[0] == p;
    KeysNotStripped(p, k);
  }

  lemma KeysNotStripped(p: Path, k: Path)
    requires !NoKeys(p)
    ensures !Under(p, Strip(k))
  {
    var i :| 0 <= i < |p| && p[i].keys != "";
    assert |p| <= |k| ==> Strip(k)[i].keys == "";
  }

  /** Several paths select what any of them does, and a prefix cuts off what is outside. */
  lemma SelectsAny(sub: Subscription, k: Path)
    ensures Selects(sub, k) <==>
            && |sub.prefix| <= |k| && k[..|sub.prefix|] == sub.prefix
            && exists i | 0 <= i < |sub.paths| :: Selects(Subscription([], [sub.paths[i]]), k[|sub.prefix|..])
  {
    if |sub.prefix| <= |k| {
      var rest := k[|sub.prefix|..];
      forall i | 0 <= i < |sub.paths|
        ensures Selects(Subscription([], [sub.paths[i]]), rest) <==> Covers(sub.paths[i], rest)
      {
        var one := Subscription([], [sub.paths[i]]);
        assert rest[0..] == rest && one.paths[0] == sub.paths[i];
      }
    }
  }

  /** What the first message of a single path holds: the data with its names, or, with list keys,
      the data at and below it; each with the value it has in the tree. */
  lemma FirstMessageHolds(p: Path, root: Tree, k: Path)
    requires WellFormed(root)
    ensures var sent := Telemetry(Subscription([], [p]), root, None);
      && sent.deletes == {}
      && (k in sent.updates <==> k in root && if NoKeys(p) then NamesLead(p, k) else |p| <= |k| && k[..|p|] == p)
      && (k in sent.updates ==> sent.updates[k] == root[k])
  {
    hide Selects;
    var sub := Subscription([], [p]);
    FullMessage(sub, root);
    ShowAt(sub, root, k);
    if NoKeys(p) {
      OpenPathSelects(p, k);
    } else {
      KeyedPathSelects(p, k);
    }
  }

  /** The updates of any message, with or without a prefix: the selected data of its source, with
      the values there. */
  lemma UpdatesExactly(sub: Subscription, source: Tree, event: Option<Batch>, k: Path)
    ensures At(Telemetry(sub, source, event).updates, k) ==
            if sub.prefix in source && k in source && Selects(sub, k) then Some(source[k]) else None
  {
    hide Selects;
    if sub.prefix in source {
      ShowAt(sub, source, k);
    }
  }

  /** The deletes of any message: with a prefix that is in the source, the recorded ones from there
      on; otherwise all of them, taken relative to the prefix. */
  lemma DeletesExactly(sub: Subscription, source: Tree, b: Batch, d: Path)
    ensures d in Telemetry(sub, source, Some(b)).deletes <==>
            && |sub.prefix| <= |d| && d[..|sub.prefix|] == sub.prefix
            && (if sub.prefix in source then d else d[|sub.prefix|..]) in b.deleted
    ensures Telemetry(sub, source, None).deletes == {}
  {
    var n := |sub.prefix|;
    if n <= |d| && d[..n] == sub.prefix {
      assert d == sub.prefix + d[n..];
    }
    forall e: Path
      ensures (sub.prefix + e)[..n] == sub.prefix && (sub.prefix + e)[n..] == e
    {
    }
  }

  /** A heartbeat on change brings what the tree holds up to date, and takes nothing away. */
  lemma HeartbeatExactly(sub: Subscription, s: Sys, k: Path)
    requires sub.paths != []
    ensures var next := Next(sub, s, Heartbeat);
      && At(next.mirror, k) ==
         (if sub.prefix in s.root && k in s.root && Selects(sub, k) then Some(s.root[k]) else At(s.mirror, k))
      && next.root == s.root && next.queue == s.queue
  {
    hide Selects;
    var msg := Telemetry(sub, s.root, None);
    UpdatesExactly(sub, s.root, None, k);
    ApplyAt(s.mirror, msg, k);
  }

  /** A list without keys selects its entries. */
  lemma ListExample()
    ensures Selects(Subscription([], [[Elem("interfaces", ""), Elem("interface", "")]]),
                    [Elem("interfaces", ""), Elem("interface", "[name=p1]")])
  {
    OpenPathSelects([Elem("interfaces", ""), Elem("interface", "")],
                    [Elem("interfaces", ""), Elem("interface", "[name=p1]")]);
  }
}
