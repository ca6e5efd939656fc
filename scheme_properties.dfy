/** Properties of the identity algebra: parse/render round trips, injectivity of the
    renderings, and what the kind resolver returns. */
module SchemeProperties {
  import opened Wrappers
  import opened Strings
  import opened Scheme

  // ---------------------------------------------------------------------------------
  // Renderings and parsers

  /** A group-resource whose resource has no dot renders to a string that parses back to it. */
  lemma GroupResourceRoundTrip(gr: GroupResource)
    requires '.' !in gr.resource
    ensures ParseGroupResource(gr.String()) == gr
  {
    if |gr.group| > 0 {
      var s := gr.String();
      var r := ParseGroupResource(s);
      assert '.' in s by { assert s[|gr.resource|] == '.'; }
      SplitUnique(r.resource, r.group, gr.resource, gr.group, '.');
    }
  }

  /** A group-kind whose kind has no dot renders to a string that parses back to it. */
  lemma GroupKindRoundTrip(gk: GroupKind)
    requires '.' !in gk.kind
    ensures ParseGroupKind(gk.String()) == gk
  {
    if |gk.group| > 0 {
      var s := gk.String();
      var r := ParseGroupKind(s);
      assert '.' in s by { assert s[|gk.kind|] == '.'; }
      SplitUnique(r.kind, r.group, gk.kind, gk.group, '.');
    }
  }

  /** A group-version without slashes in its parts survives rendering and parsing. */
  lemma ParseGroupVersionRoundTrip(gv: GroupVersion)
    requires '/' !in gv.group && '/' !in gv.version
    ensures ParseGroupVersion(gv.String()) == Success(gv)
  {
    if |gv.group| > 0 {
      var s := gv.String();
      CountAround(gv.group, gv.version, '/');
      assert Count(gv.group, '/') == 0 && Count(gv.version, '/') == 0;
      var r := ParseGroupVersion(s).value;
      SplitUnique(r.group, r.version, gv.group, gv.version, '/');
    } else {
      assert Count(gv.version, '/') == 0;
    }
  }

  /** Hence the rendering of such group-versions is injective. */
  lemma GroupVersionStringInjective(a: GroupVersion, b: GroupVersion)
    requires '/' !in a.group && '/' !in a.version
    requires '/' !in b.group && '/' !in b.version
    ensures a.String() == b.String() <==> a == b
  {
    ParseGroupVersionRoundTrip(a);
    ParseGroupVersionRoundTrip(b);
  }

  /** The identifier of a slash-free group-version is a stable key: it parses back to the
      group-version, and two such group-versions share an identifier exactly when equal. */
  lemma IdentifierKey(a: GroupVersion, b: GroupVersion)
    requires '/' !in a.group && '/' !in a.version
    requires '/' !in b.group && '/' !in b.version
    ensures ParseGroupVersion(a.Identifier()) == Success(a)
    ensures a.Identifier() == b.Identifier() <==> a == b
  {
    ParseGroupVersionRoundTrip(a);
    GroupVersionStringInjective(a, b);
  }

  /** A string `a + s + b` where s starts with a character that is not in a or a', split
      the same way, gives the same pieces. */
  lemma SplitUniqueAt(a: string, b: string, a': string, b': string, s: string)
    requires |s| > 0 && s[0] !in a && s[0] !in a'
    requires a + s + b == a' + s + b'
    ensures a == a' && b == b'
  {
    var c := s[0];
    assert a + s + b == a + [c] + (s[1..] + b);
    assert a' + s + b' == a' + [c] + (s[1..] + b');
    SplitUnique(a, s[1..] + b, a', s[1..] + b', c);
    assert s[1..] + b == s[1..] + b';
    assert b == (s[1..] + b)[|s| - 1..];
    assert b' == (s[1..] + b')[|s| - 1..];
  }

  /** The GroupVersionKind rendering `group/version, Kind=kind` identifies the kind when
      the group has no `/` and the version no `,`. */
  lemma GroupVersionKindStringInjective(a: GroupVersionKind, b: GroupVersionKind)
    requires '/' !in a.group && ',' !in a.version
    requires '/' !in b.group && ',' !in b.version
    ensures a.String() == b.String() <==> a == b
  {
    if a.String() == b.String() {
      assert a.String() == a.group + "/" + (a.version + ", Kind=" + a.kind);
      assert b.String() == b.group + "/" + (b.version + ", Kind=" + b.kind);
      SplitUniqueAt(a.group, a.version + ", Kind=" + a.kind, b.group, b.version + ", Kind=" + b.kind, "/");
      assert a.version + ", Kind=" + a.kind == a.version + ", Kind=" + a.kind + "";
      SplitUniqueAt(a.version, a.kind, b.version, b.kind, ", Kind=");
    }
  }

  /** The GroupVersionResource rendering identifies the resource under the same conditions. */
  lemma GroupVersionResourceStringInjective(a: GroupVersionResource, b: GroupVersionResource)
    requires '/' !in a.group && ',' !in a.version
    requires '/' !in b.group && ',' !in b.version
    ensures a.String() == b.String() <==> a == b
  {
    if a.String() == b.String() {
      assert a.String() == a.group + "/" + (a.version + ", Resource=" + a.resource);
      assert b.String() == b.group + "/" + (b.version + ", Resource=" + b.resource);
      SplitUniqueAt(a.group, a.version + ", Resource=" + a.resource, b.group, b.version + ", Resource=" + b.resource, "/");
      SplitUniqueAt(a.version, a.resource, b.version, b.resource, ", Resource=");
    }
  }

  /** The kind-side projections and builders take a value apart and put it back together. */
  lemma KindProjectionsRebuild(gvk: GroupVersionKind, gv: GroupVersion, gk: GroupKind, s: string)
    ensures gvk.GroupKind().WithVersion(gvk.version) == gvk
    ensures gvk.GroupVersion().WithKind(gvk.kind) == gvk
    ensures gv.WithKind(s).GroupVersion() == gv && gv.WithKind(s).kind == s
    ensures gk.WithVersion(s).GroupKind() == gk && gk.WithVersion(s).version == s
  {
  }

  /** The resource-side projections and builders take a value apart and put it back together. */
  lemma ResourceProjectionsRebuild(gvr: GroupVersionResource, gv: GroupVersion, gr: GroupResource, s: string)
    ensures gvr.GroupResource().WithVersion(gvr.version) == gvr
    ensures gvr.GroupVersion().WithResource(gvr.resource) == gvr
    ensures gv.WithResource(s).GroupVersion() == gv && gv.WithResource(s).resource == s
    ensures gr.WithVersion(s).GroupResource() == gr && gr.WithVersion(s).version == s
  {
  }

  /** Writing a kind as (apiVersion, kind) and reading it back is the identity when the
      group and version have no `/`. */
  lemma APIVersionRoundTrip(gvk: GroupVersionKind)
    requires '/' !in gvk.group && '/' !in gvk.version
    ensures FromAPIVersionAndKind(gvk.ToAPIVersionAndKind().0, gvk.ToAPIVersionAndKind().1) == gvk
  {
    ParseGroupVersionRoundTrip(gvk.GroupVersion());
  }

  /** A group with a `/` in it is lost on the way: only the kind comes back. */
  lemma APIVersionLoss()
    ensures var gvk := GroupVersionKind("a/b", "v1", "K");
      FromAPIVersionAndKind(gvk.ToAPIVersionAndKind().0, gvk.ToAPIVersionAndKind().1) ==
      GroupVersionKind("", "", "K")
  {
    var gvk := GroupVersionKind("a/b", "v1", "K");
    assert gvk.GroupVersion().String() == "a/b" + "/" + "v1";
    CountAround("a/b", "v1", '/');
    CountAround("a", "b", '/');
  }

  /** A sample argument without a dot: no precise reading. */
  lemma ParseResourceArgNoDot()
    ensures ParseResourceArg("pods") == (None, GroupResource("", "pods"))
  {
    assert '.' !in "pods";
  }

  /** A sample argument with one dot: no precise reading; the rest is the group. */
  lemma ParseResourceArgOneDot()
    ensures ParseResourceArg("pods.apps") == (None, GroupResource("apps", "pods"))
  {
    assert "pods.apps" == "pods" + "." + "apps";
    assert '.' !in "pods" && '.' !in "apps";
    GroupResourceRoundTrip(GroupResource("apps", "pods"));
    CountAround("pods", "apps", '.');
  }

  /** Conversely, `resource.version.group` with dot-free resource and version is read back
      into exactly those parts, and its coarse reading takes `version.group` as the group. */
  lemma ParseResourceArgOfParts(res: string, ver: string, grp: string)
    requires '.' !in res && '.' !in ver
    ensures ParseResourceArg(res + "." + ver + "." + grp) ==
      (Some(GroupVersionResource(grp, ver, res)), GroupResource(ver + "." + grp, res))
  {
    var arg := res + "." + ver + "." + grp;
    var rest := ver + "." + grp;
    assert arg == res + ['.'] + rest;
    CountAround(ver, grp, '.');
    CountAround(res, rest, '.');
    assert Count(arg, '.') >= 2;
    var p := ParseResourceArg(arg);
    assert p.0.Some?;
    var r := p.0.value;
    assert arg == r.resource + "." + r.version + "." + r.group;
    SplitTwiceUnique(r.resource, r.version, r.group, res, ver, grp, '.');
    GroupResourceRoundTrip(GroupResource(rest, res));
    assert GroupResource(rest, res).String() == arg;
  }

  /** The same for kinds: `Kind.version.group` is read back into exactly those parts. */
  lemma ParseKindArgOfParts(knd: string, ver: string, grp: string)
    requires '.' !in knd && '.' !in ver
    ensures ParseKindArg(knd + "." + ver + "." + grp) ==
      (Some(GroupVersionKind(grp, ver, knd)), GroupKind(ver + "." + grp, knd))
  {
    var arg := knd + "." + ver + "." + grp;
    var rest := ver + "." + grp;
    assert arg == knd + ['.'] + rest;
    CountAround(ver, grp, '.');
    CountAround(knd, rest, '.');
    assert Count(arg, '.') >= 2;
    var p := ParseKindArg(arg);
    assert p.0.Some?;
    var r := p.0.value;
    assert arg == r.kind + "." + r.version + "." + r.group;
    SplitTwiceUnique(r.kind, r.version, r.group, knd, ver, grp, '.');
    GroupKindRoundTrip(GroupKind(rest, knd));
    assert GroupKind(rest, knd).String() == arg;
  }

  /** A sample argument with two dots: both readings. */
  lemma ParseResourceArgTwoDots()
    ensures ParseResourceArg("pods.v1.apps") ==
      (Some(GroupVersionResource("apps", "v1", "pods")), GroupResource("v1.apps", "pods"))
  {
    assert "pods" + "." + "v1" + "." + "apps" == "pods.v1.apps";
    assert "v1" + "." + "apps" == "v1.apps";
    ParseResourceArgOfParts("pods", "v1", "apps");
  }

  // ---------------------------------------------------------------------------------
  // The single-group-version probe

  /** The three outcomes of the probe, and that a hit always carries gv's group and version. */
  lemma KindForCases(gv: GroupVersion, kinds: seq<GroupVersionKind>)
    ensures (exists i :: 0 <= i < |kinds| && IsExact(kinds[i], gv)) ==>
      exists i :: 0 <= i < |kinds| && IsExact(kinds[i], gv) &&
        (forall j :: 0 <= j < i ==> !IsExact(kinds[j], gv)) &&
        KindFor(gv, kinds) == Some(kinds[i])
    ensures (forall i :: 0 <= i < |kinds| ==> !IsExact(kinds[i], gv)) &&
            (exists i :: 0 <= i < |kinds| && kinds[i].group == gv.group) ==>
      exists i :: 0 <= i < |kinds| && kinds[i].group == gv.group &&
        (forall j :: 0 <= j < i ==> kinds[j].group != gv.group) &&
        KindFor(gv, kinds) == Some(gv.WithKind(kinds[i].kind))
    ensures (forall i :: 0 <= i < |kinds| ==> kinds[i].group != gv.group) ==> KindFor(gv, kinds) == None
    ensures KindFor(gv, kinds).Some? ==> KindFor(gv, kinds).value.GroupVersion() == gv
  {
    var e := ExactIndex(gv, kinds);
    if e.Some? {
      assert KindFor(gv, kinds) == Some(kinds[e.value]);
    } else {
      var g := GroupIndex(gv, kinds);
      if g.Some? {
        assert KindFor(gv, kinds) == Some(gv.WithKind(kinds[g.value].kind));
      } else {
        assert KindFor(gv, kinds) == None;
      }
    }
  }

  /** A hit occurs literally among the kinds exactly when it came from the exact pass: a
      kind rebuilt with gv's version is never one of the candidates. */
  lemma LiteralIffExact(gv: GroupVersion, kinds: seq<GroupVersionKind>)
    requires KindFor(gv, kinds).Some?
    ensures KindFor(gv, kinds).value in kinds <==> exists k :: k in kinds && IsExact(k, gv)
  {
    var t := KindFor(gv, kinds).value;
    if t in kinds {
      assert IsExact(t, gv);
    }
    if exists k :: k in kinds && IsExact(k, gv) {
      var k :| k in kinds && IsExact(k, gv);
      var i :| 0 <= i < |kinds| && kinds[i] == k;
      assert ExactIndex(gv, kinds).Some?;
    }
  }

  // ---------------------------------------------------------------------------------
  // The hits over a preference list

  lemma {:induction false} TargetsAppend(a: seq<GroupVersion>, b: seq<GroupVersion>, kinds: seq<GroupVersionKind>)
    ensures Targets(a + b, kinds) == Targets(a, kinds) + Targets(b, kinds)
    decreases |b|
  {
    if b == [] {
      assert a + b == a;
    } else {
      var b' := b[..|b| - 1];
      assert (a + b)[..|a + b| - 1] == a + b';
      assert (a + b)[|a + b| - 1] == b[|b| - 1];
      TargetsAppend(a, b', kinds);
    }
  }

  /** The hits are exactly the probe results of the preferred group-versions. */
  lemma {:induction false} TargetsMembers(gvs: seq<GroupVersion>, kinds: seq<GroupVersionKind>, t: GroupVersionKind)
    ensures t in Targets(gvs, kinds) <==> exists i :: 0 <= i < |gvs| && KindFor(gvs[i], kinds) == Some(t)
    decreases |gvs|
  {
    if gvs != [] {
      var n := |gvs| - 1;
      var init := gvs[..n];
      TargetsMembers(init, kinds, t);
      assert Targets(gvs, kinds) == Targets(init, kinds) + Hit(gvs[n], kinds);
      assert t in Hit(gvs[n], kinds) <==> KindFor(gvs[n], kinds) == Some(t);
      if t in Targets(gvs, kinds) {
        if t in Targets(init, kinds) {
          var i :| 0 <= i < |init| && KindFor(init[i], kinds) == Some(t);
          assert gvs[i] == init[i];
        } else {
          assert KindFor(gvs[n], kinds) == Some(t);
        }
      } else {
        forall i | 0 <= i < |gvs|
          ensures KindFor(gvs[i], kinds) != Some(t)
        {
          if i < n {
            assert init[i] == gvs[i];
          }
        }
      }
    }
  }

  /** No hits at all exactly when every probe fails. */
  lemma TargetsEmpty(gvs: seq<GroupVersion>, kinds: seq<GroupVersionKind>)
    ensures Targets(gvs, kinds) == [] <==> forall i :: 0 <= i < |gvs| ==> KindFor(gvs[i], kinds).None?
  {
    var ts := Targets(gvs, kinds);
    if ts != [] {
      TargetsMembers(gvs, kinds, ts[0]);
    }
    if exists i :: 0 <= i < |gvs| && KindFor(gvs[i], kinds).Some? {
      var i :| 0 <= i < |gvs| && KindFor(gvs[i], kinds).Some?;
      TargetsMembers(gvs, kinds, KindFor(gvs[i], kinds).value);
    }
  }

  /** Splits the hits at the probe of gvs[i]. */
  lemma TargetsAt(gvs: seq<GroupVersion>, kinds: seq<GroupVersionKind>, i: nat)
    requires i < |gvs|
    ensures Targets(gvs, kinds) ==
      Targets(gvs[..i], kinds) + Hit(gvs[i], kinds) + Targets(gvs[i + 1..], kinds)
  {
    assert gvs == gvs[..i] + [gvs[i]] + gvs[i + 1..];
    TargetsAppend(gvs[..i] + [gvs[i]], gvs[i + 1..], kinds);
    TargetsAppend(gvs[..i], [gvs[i]], kinds);
    assert [gvs[i]][..0] == [];
  }

  // ---------------------------------------------------------------------------------
  // The preference resolver

  /** It finds something exactly when some preferred group-version's probe does. */
  lemma ResolveFound(gvs: seq<GroupVersion>, kinds: seq<GroupVersionKind>)
    ensures Resolve(gvs, kinds).Some? <==> exists i :: 0 <= i < |gvs| && KindFor(gvs[i], kinds).Some?
  {
    TargetsEmpty(gvs, kinds);
  }

  /** It returns one of the hits: the only one, or the first that is literally a candidate,
      or else the first. */
  lemma ResolveChoosesTarget(gvs: seq<GroupVersion>, kinds: seq<GroupVersionKind>)
    ensures var ts := Targets(gvs, kinds);
      (Resolve(gvs, kinds).Some? ==> Resolve(gvs, kinds).value in ts) &&
      (|ts| == 1 ==> Resolve(gvs, kinds) == Some(ts[0])) &&
      (|ts| > 1 ==> Resolve(gvs, kinds) == Some(Best(kinds, ts)))
  {
  }

  /** When some preferred group-version has an exact candidate, the resolver returns the
      exact hit of the most preferred such group-version, whatever the other hits are. */
  lemma ResolvePrefersExact(gvs: seq<GroupVersion>, kinds: seq<GroupVersionKind>, i0: nat)
    requires i0 < |gvs|
    requires exists k :: k in kinds && IsExact(k, gvs[i0])
    requires forall i, k :: 0 <= i < i0 && k in kinds ==> !IsExact(k, gvs[i])
    ensures Resolve(gvs, kinds) == KindFor(gvs[i0], kinds)
  {
    var p := Targets(gvs[..i0], kinds);
    var ts := Targets(gvs, kinds);
    TargetsAt(gvs, kinds, i0);
    LiteralIffExact(gvs[i0], kinds);
    var t := KindFor(gvs[i0], kinds).value;
    assert ts[|p|] == t && t in kinds;
    forall j | 0 <= j < |p|
      ensures p[j] !in kinds
    {
      TargetsMembers(gvs[..i0], kinds, p[j]);
      var i :| 0 <= i < i0 && KindFor(gvs[..i0][i], kinds) == Some(p[j]);
      assert gvs[..i0][i] == gvs[i];
      LiteralIffExact(gvs[i], kinds);
      assert ts[j] == p[j];
    }
    if |ts| > 1 {
      var r := LiteralIndex(kinds, ts);
      assert r.Some?;
      assert r.value == |p|;
    } else {
      assert |p| == 0;
    }
  }

  /** When no preferred group-version has an exact candidate, the resolver returns the hit
      of the most preferred group-version whose group occurs among the candidates. */
  lemma ResolveFallsBack(gvs: seq<GroupVersion>, kinds: seq<GroupVersionKind>, j0: nat)
    requires forall i, k :: 0 <= i < |gvs| && k in kinds ==> !IsExact(k, gvs[i])
    requires j0 < |gvs| && KindFor(gvs[j0], kinds).Some?
    requires forall i :: 0 <= i < j0 ==> KindFor(gvs[i], kinds).None?
    ensures Resolve(gvs, kinds) == KindFor(gvs[j0], kinds)
  {
    var ts := Targets(gvs, kinds);
    TargetsAt(gvs, kinds, j0);
    TargetsEmpty(gvs[..j0], kinds);
    forall j | 0 <= j < |ts|
      ensures ts[j] !in kinds
    {
      TargetsMembers(gvs, kinds, ts[j]);
      var i :| 0 <= i < |gvs| && KindFor(gvs[i], kinds) == Some(ts[j]);
      LiteralIffExact(gvs[i], kinds);
    }
  }

  /** The three resolver cases spelled out on concrete inputs. */
  lemma ResolveExamples()
    ensures Resolve([GroupVersion("g1", "v2"), GroupVersion("g1", "v1")],
                    [GroupVersionKind("g1", "v1", "K"), GroupVersionKind("g1", "v2", "K")])
            == Some(GroupVersionKind("g1", "v2", "K"))
    ensures Resolve([GroupVersion("g1", "v3")], [GroupVersionKind("g1", "v1", "K")])
            == Some(GroupVersionKind("g1", "v3", "K"))
    ensures Resolve([GroupVersion("g2", "v1")], [GroupVersionKind("g1", "v1", "K")]) == None
  {
    var kinds := [GroupVersionKind("g1", "v1", "K"), GroupVersionKind("g1", "v2", "K")];
    var gvs := [GroupVersion("g1", "v2"), GroupVersion("g1", "v1")];
    assert IsExact(kinds[1], gvs[0]);
    ResolvePrefersExact(gvs, kinds, 0);
    assert KindFor(gvs[0], kinds) == Some(kinds[1]);
    var k2 := [GroupVersionKind("g1", "v1", "K")];
    assert KindFor(GroupVersion("g1", "v3"), k2) == Some(GroupVersionKind("g1", "v3", "K"));
    assert Targets([GroupVersion("g1", "v3")], k2) == [GroupVersionKind("g1", "v3", "K")];
    assert KindFor(GroupVersion("g2", "v1"), k2) == None;
    assert Targets([GroupVersion("g2", "v1")], k2) == [];
  }

  // ---------------------------------------------------------------------------------
  // Identifiers

  /** The identifier of a non-empty preference list is `[...]` around a comma-separated
      list from which the item renderings can be read back when none holds a comma. */
  lemma IdentifierDecodes(gvs: seq<GroupVersion>)
    requires |gvs| > 0
    requires forall i :: 0 <= i < |gvs| ==> ',' !in gvs[i].String()
    ensures var id := IdentifierOf(gvs);
      |id| >= 2 && id[0] == '[' && id[|id| - 1] == ']' &&
      Split(id[1..|id| - 1], ',') == Renderings(gvs)
  {
    var id := IdentifierOf(gvs);
    var body := Join(Renderings(gvs), ",");
    assert id == "[" + body + "]";
    assert id[1..|id| - 1] == body;
    SplitOfJoin(Renderings(gvs), ',');
  }

  /** The identifier of the empty list, and of a sample list with a legacy group. */
  lemma IdentifierExamples()
    ensures IdentifierOf([]) == "[]"
    ensures IdentifierOf([GroupVersion("g1", "v1"), GroupVersion("", "v2")]) == "[g1/v1,v2]"
  {
    var gvs := [GroupVersion("g1", "v1"), GroupVersion("", "v2")];
    assert gvs[0].String() == "g1/v1";
    assert gvs[1].String() == "v2";
    var rs := Renderings(gvs);
    assert rs == ["g1/v1", "v2"];
    assert rs[1..] == ["v2"];
    assert Join(rs, ",") == "g1/v1" + "," + "v2";
  }
}
