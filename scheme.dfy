/** The API type-identity algebra of pkg/scheme/group_version.go: five value types naming
    a resource or kind at some precision, their renderings and parsers, and the resolver
    that picks one kind out of a candidate list under a group-version preference order. */
module Scheme {
  import opened Wrappers
  import opened Strings

  // The composite literals GroupResource{...}, GroupKind{...} and GroupVersion{...}, for the
  // projections named after those types (inside them the type's name means the member).
  function GroupResourceOf(group: string, resource: string): GroupResource { GroupResource(group, resource) }
  function GroupKindOf(group: string, kind: string): GroupKind { GroupKind(group, kind) }
  function GroupVersionOf(group: string, version: string): GroupVersion { GroupVersion(group, version) }

  /** Group and resource, without a version. */
  datatype GroupResource = GroupResource(group: string, resource: string) {

    function WithVersion(version: string): GroupVersionResource
    {
      GroupVersionResource(group, version, resource)
    }

    predicate Empty()
      ensures Empty() <==> this == GroupResource("", "")
    {
      |group| == 0 && |resource| == 0
    }

    /** `resource.group`, or just `resource` for the empty group. */
    function String(): string
    {
      if |group| == 0 then resource else resource + "." + group
    }
  }

  /** Group, version and resource: an unambiguous resource. */
  datatype GroupVersionResource = GroupVersionResource(group: string, version: string, resource: string) {

    predicate Empty()
      ensures Empty() <==> this == GroupVersionResource("", "", "")
    {
      |group| == 0 && |version| == 0 && |resource| == 0
    }

    function GroupResource(): GroupResource
    {
      GroupResourceOf(group, resource)
    }

    function GroupVersion(): GroupVersion
    {
      GroupVersionOf(group, version)
    }

    /** `group/version, Resource=resource`, the group/version part written even for the
        empty group. */
    function String(): string
    {
      group + "/" + version + ", Resource=" + resource
    }
  }

  /** Group and kind, without a version. */
  datatype GroupKind = GroupKind(group: string, kind: string) {

    predicate Empty()
      ensures Empty() <==> this == GroupKind("", "")
    {
      |group| == 0 && |kind| == 0
    }

    function WithVersion(version: string): GroupVersionKind
    {
      GroupVersionKind(group, version, kind)
    }

    /** `kind.group`, or just `kind` for the empty group. */
    function String(): string
    {
      if |group| == 0 then kind else kind + "." + group
    }
  }

  /** Group, version and kind: an unambiguous kind. */
  datatype GroupVersionKind = GroupVersionKind(group: string, version: string, kind: string) {

    predicate Empty()
      ensures Empty() <==> this == GroupVersionKind("", "", "")
    {
      |group| == 0 && |version| == 0 && |kind| == 0
    }

    function GroupKind(): GroupKind
    {
      GroupKindOf(group, kind)
    }

    function GroupVersion(): GroupVersion
    {
      GroupVersionOf(group, version)
    }

    /** `group/version, Kind=kind`. */
    function String(): string
    {
      group + "/" + version + ", Kind=" + kind
    }

    /** The (apiVersion, kind) pair written into serialized objects. The Empty branch of
        the source gives what the general branch would give anyway. */
    function ToAPIVersionAndKind(): (r: (string, string))
      ensures r == (GroupVersion().String(), kind)
      ensures Empty() ==> r == ("", "")
    {
      if Empty() then ("", "") else (GroupVersion().String(), kind)
    }
  }

  /** Group and version: one revision of one API group. */
  datatype GroupVersion = GroupVersion(group: string, version: string) {

    predicate Empty()
      ensures Empty() <==> this == GroupVersion("", "")
    {
      |group| == 0 && |version| == 0
    }

    /** `group/version`, or just `version` for the legacy empty group. */
    function String(): string
    {
      if |group| > 0 then group + "/" + version else version
    }

    /** The stable key under which this group-version is known. */
    function Identifier(): (id: string)
      ensures id == String()
    {
      String()
    }

    function WithKind(kind: string): GroupVersionKind
    {
      GroupVersionKind(group, version, kind)
    }

    function WithResource(resource: string): GroupVersionResource
    {
      GroupVersionResource(group, version, resource)
    }

    /** The two-pass probe: the first kind with this exact group and version, else the
        first kind of this group rebuilt with this version, else not found. */
    method KindForGroupVersionKinds(kinds: seq<GroupVersionKind>) returns (target: GroupVersionKind, ok: bool)
      ensures ok == KindFor(this, kinds).Some?
      ensures ok ==> target == KindFor(this, kinds).value
      ensures !ok ==> target == GroupVersionKind("", "", "")
    {
      for i := 0 to |kinds|
        invariant forall j :: 0 <= j < i ==> !IsExact(kinds[j], this)
      {
        var gvk := kinds[i];
        if gvk.group == group && gvk.version == version {
          return gvk, true;
        }
      }
      for i := 0 to |kinds|
        invariant forall j :: 0 <= j < i ==> kinds[j].group != group
      {
        var gvk := kinds[i];
        if gvk.group == group {
          return WithKind(gvk.kind), true;
        }
      }
      return GroupVersionKind("", "", ""), false;
    }
  }

  /** An ordered list of desired group-versions, most preferred first. */
  datatype GroupVersions = GroupVersions(items: seq<GroupVersion>) {

    /** `[` + the renderings of the items joined by `,` + `]`. */
    method Identifier() returns (id: string)
      ensures id == IdentifierOf(items)
    {
      var groupVersions: seq<string> := [];
      for i := 0 to |items|
        invariant groupVersions == Renderings(items[..i])
      {
        assert items[..i + 1] == items[..i] + [items[i]];
        groupVersions := groupVersions + [items[i].String()];
      }
      assert items[..|items|] == items;
      id := "[" + Join(groupVersions, ",") + "]";
    }

    /** Probes every preferred group-version in order, then picks among the hits. */
    method KindForGroupVersionKinds(kinds: seq<GroupVersionKind>) returns (target: GroupVersionKind, ok: bool)
      ensures ok == Resolve(items, kinds).Some?
      ensures ok ==> target == Resolve(items, kinds).value
      ensures !ok ==> target == GroupVersionKind("", "", "")
    {
      var targets: seq<GroupVersionKind> := [];
      for i := 0 to |items|
        invariant targets == Targets(items[..i], kinds)
      {
        assert items[..i + 1][..i] == items[..i];
        var t, found := items[i].KindForGroupVersionKinds(kinds);
        if found {
          targets := targets + [t];
        }
      }
      assert items[..|items|] == items;
      if |targets| == 1 {
        return targets[0], true;
      }
      if |targets| > 1 {
        target := BestMatch(kinds, targets);
        return target, true;
      }
      return GroupVersionKind("", "", ""), false;
    }
  }

  /** The failure of ParseGroupVersion: more than one `/` in the input. */
  datatype ParseError = UnexpectedGroupVersion(input: string)

  // ---------------------------------------------------------------------------------
  // Parsers

  /** Splits a `name.group` string at its first `.`. */
  function ParseGroupResource(gr: string): (r: GroupResource)
    ensures '.' !in r.resource
    ensures '.' !in gr ==> r == GroupResource("", gr)
    ensures '.' in gr ==> r.resource + "." + r.group == gr
  {
    var i := Index(gr, '.');
    if i >= 0 then
      assert gr == gr[..i] + "." + gr[i + 1..];
      GroupResource(gr[i + 1..], gr[..i])
    else GroupResource("", gr)
  }

  /** Splits a `Kind.group` string at its first `.`. */
  function ParseGroupKind(gk: string): (r: GroupKind)
    ensures '.' !in r.kind
    ensures '.' !in gk ==> r == GroupKind("", gk)
    ensures '.' in gk ==> r.kind + "." + r.group == gk
  {
    var i := Index(gk, '.');
    if i == -1 then GroupKind("", gk)
    else
      assert gk == gk[..i] + "." + gk[i + 1..];
      GroupKind(gk[i + 1..], gk[..i])
  }

  /** Pieces of a string with at least two dots, split on its first two. */
  lemma ThreePieces(arg: string)
    requires Count(arg, '.') >= 2
    ensures |SplitN(arg, '.', 3)| == 3
    ensures var s := SplitN(arg, '.', 3);
      arg == s[0] + "." + s[1] + "." + s[2] && '.' !in s[0] && '.' !in s[1]
  {
    SplitNPieces(arg, '.', 3);
    SplitNJoin(arg, '.', 3);
    var s := SplitN(arg, '.', 3);
    assert s == [s[0], s[1], s[2]];
    JoinThree(s[0], s[1], s[2], ".");
  }

  /** `resource.version.group` read both ways: the precise reading exists only when the
      input has two or more dots; the coarse one always. */
  function ParseResourceArg(arg: string): (r: (Option<GroupVersionResource>, GroupResource))
    ensures r.0.Some? <==> Count(arg, '.') >= 2
    ensures r.0.Some? ==>
      arg == r.0.value.resource + "." + r.0.value.version + "." + r.0.value.group &&
      '.' !in r.0.value.resource && '.' !in r.0.value.version
    ensures r.1 == ParseGroupResource(arg)
  {
    var gvr :=
      if Count(arg, '.') >= 2 then
        ThreePieces(arg);
        var s := SplitN(arg, '.', 3);
        Some(GroupVersionResource(s[2], s[1], s[0]))
      else None;
    (gvr, ParseGroupResource(arg))
  }

  /** `Kind.version.group` read both ways, as ParseResourceArg. */
  function ParseKindArg(arg: string): (r: (Option<GroupVersionKind>, GroupKind))
    ensures r.0.Some? <==> Count(arg, '.') >= 2
    ensures r.0.Some? ==>
      arg == r.0.value.kind + "." + r.0.value.version + "." + r.0.value.group &&
      '.' !in r.0.value.kind && '.' !in r.0.value.version
    ensures r.1 == ParseGroupKind(arg)
  {
    var gvk :=
      if Count(arg, '.') >= 2 then
        ThreePieces(arg);
        var s := SplitN(arg, '.', 3);
        Some(GroupVersionKind(s[2], s[1], s[0]))
      else None;
    (gvk, ParseGroupKind(arg))
  }

  /** `group/version` or `version` to a GroupVersion; more than one `/` is an error. */
  function ParseGroupVersion(gv: string): (r: Result<GroupVersion, ParseError>)
    ensures r.Success? <==> Count(gv, '/') <= 1
    ensures gv == "" || gv == "/" ==> r == Success(GroupVersion("", ""))
    ensures Count(gv, '/') == 0 ==> r == Success(GroupVersion("", gv))
    ensures Count(gv, '/') == 1 ==>
      r.Success? && r.value.group + "/" + r.value.version == gv &&
      '/' !in r.value.group && '/' !in r.value.version
    ensures r.Failure? ==> r.error == UnexpectedGroupVersion(gv)
  {
    if |gv| == 0 || gv == "/" then
      assert Count("/", '/') == 1;
      Success(GroupVersion("", ""))
    else
      var n := Count(gv, '/');
      if n == 0 then Success(GroupVersion("", gv))
      else if n == 1 then
        var i := Index(gv, '/');
        assert gv == gv[..i] + "/" + gv[i + 1..];
        CountAround(gv[..i], gv[i + 1..], '/');
        Success(GroupVersion(gv[..i], gv[i + 1..]))
      else Failure(UnexpectedGroupVersion(gv))
  }

  // ---------------------------------------------------------------------------------
  // Kind resolution: specification functions

  predicate IsExact(k: GroupVersionKind, gv: GroupVersion)
  {
    k.group == gv.group && k.version == gv.version
  }

  /** The first position of a kind with exactly gv's group and version. */
  function ExactIndex(gv: GroupVersion, kinds: seq<GroupVersionKind>): (r: Option<nat>)
    ensures r.Some? ==> r.value < |kinds| && IsExact(kinds[r.value], gv)
    ensures r.Some? ==> forall j :: 0 <= j < r.value ==> !IsExact(kinds[j], gv)
    ensures r.None? <==> forall j :: 0 <= j < |kinds| ==> !IsExact(kinds[j], gv)
  {
    if kinds == [] then None
    else if IsExact(kinds[0], gv) then Some(0)
    else match ExactIndex(gv, kinds[1..])
      case Some(i) => Some(i + 1)
      case None => None
  }

  /** The first position of a kind with gv's group, whatever its version. */
  function GroupIndex(gv: GroupVersion, kinds: seq<GroupVersionKind>): (r: Option<nat>)
    ensures r.Some? ==> r.value < |kinds| && kinds[r.value].group == gv.group
    ensures r.Some? ==> forall j :: 0 <= j < r.value ==> kinds[j].group != gv.group
    ensures r.None? <==> forall j :: 0 <= j < |kinds| ==> kinds[j].group != gv.group
  {
    if kinds == [] then None
    else if kinds[0].group == gv.group then Some(0)
    else match GroupIndex(gv, kinds[1..])
      case Some(i) => Some(i + 1)
      case None => None
  }

  /** What the single-group-version probe finds. */
  function KindFor(gv: GroupVersion, kinds: seq<GroupVersionKind>): Option<GroupVersionKind>
  {
    match ExactIndex(gv, kinds)
    case Some(i) => Some(kinds[i])
    case None =>
      match GroupIndex(gv, kinds)
      case Some(i) => Some(gv.WithKind(kinds[i].kind))
      case None => None
  }

  /** The hits of the probe over the preference list, in preference order. */
  function Targets(gvs: seq<GroupVersion>, kinds: seq<GroupVersionKind>): seq<GroupVersionKind>
  {
    if gvs == [] then [] else Targets(gvs[..|gvs| - 1], kinds) + Hit(gvs[|gvs| - 1], kinds)
  }

  /** The probe's result for one group-version as a list of zero or one targets. */
  function Hit(gv: GroupVersion, kinds: seq<GroupVersionKind>): seq<GroupVersionKind>
  {
    match KindFor(gv, kinds)
    case Some(t) => [t]
    case None => []
  }

  /** The first position of a target that literally occurs among the kinds. */
  function LiteralIndex(kinds: seq<GroupVersionKind>, targets: seq<GroupVersionKind>): (r: Option<nat>)
    ensures r.Some? ==> r.value < |targets| && targets[r.value] in kinds
    ensures r.Some? ==> forall j :: 0 <= j < r.value ==> targets[j] !in kinds
    ensures r.None? <==> forall j :: 0 <= j < |targets| ==> targets[j] !in kinds
  {
    if targets == [] then None
    else if targets[0] in kinds then Some(0)
    else match LiteralIndex(kinds, targets[1..])
      case Some(i) => Some(i + 1)
      case None => None
  }

  /** The tie-break: the first literally registered target, else the first target. */
  function Best(kinds: seq<GroupVersionKind>, targets: seq<GroupVersionKind>): (r: GroupVersionKind)
    requires |targets| > 0
    ensures r in targets
    ensures (exists j :: 0 <= j < |targets| && targets[j] in kinds) ==>
      r in kinds &&
      exists j :: 0 <= j < |targets| && r == targets[j] && forall m :: 0 <= m < j ==> targets[m] !in kinds
    ensures (forall j :: 0 <= j < |targets| ==> targets[j] !in kinds) ==> r == targets[0]
  {
    match LiteralIndex(kinds, targets)
    case Some(i) => targets[i]
    case None => targets[0]
  }

  /** What the preference resolver returns. */
  function Resolve(gvs: seq<GroupVersion>, kinds: seq<GroupVersionKind>): Option<GroupVersionKind>
  {
    var targets := Targets(gvs, kinds);
    if |targets| == 1 then Some(targets[0])
    else if |targets| > 1 then Some(Best(kinds, targets))
    else None
  }

  /** The item renderings in order. */
  function Renderings(gvs: seq<GroupVersion>): (r: seq<string>)
    ensures |r| == |gvs|
    ensures forall i :: 0 <= i < |gvs| ==> r[i] == gvs[i].String()
  {
    seq(|gvs|, i requires 0 <= i < |gvs| => gvs[i].String())
  }

  /** The identifier of a preference list. */
  function IdentifierOf(gvs: seq<GroupVersion>): string
  {
    "[" + Join(Renderings(gvs), ",") + "]"
  }

  // ---------------------------------------------------------------------------------
  // Kind resolution: the tie-break scan

  /** bestMatch: the nested scan over targets and kinds. */
  method BestMatch(kinds: seq<GroupVersionKind>, targets: seq<GroupVersionKind>) returns (r: GroupVersionKind)
    requires |targets| > 0
    ensures r == Best(kinds, targets)
  {
    for i := 0 to |targets|
      invariant forall j :: 0 <= j < i ==> targets[j] !in kinds
    {
      var gvk := targets[i];
      for m := 0 to |kinds|
        invariant forall j :: 0 <= j < m ==> kinds[j] != gvk
      {
        var k := kinds[m];
        if k == gvk {
          return k;
        }
      }
    }
    return targets[0];
  }

  // ---------------------------------------------------------------------------------
  // Adapters

  /** The GroupVersionKind behind an (apiVersion, kind) pair; an unparsable apiVersion
      keeps only the kind. */
  function FromAPIVersionAndKind(apiVersion: string, kind: string): (r: GroupVersionKind)
    ensures r.kind == kind
    ensures Count(apiVersion, '/') <= 1 ==>
      ParseGroupVersion(apiVersion) == Success(r.GroupVersion())
    ensures Count(apiVersion, '/') >= 2 ==> r == GroupVersionKind("", "", kind)
  {
    match ParseGroupVersion(apiVersion)
    case Success(gv) => GroupVersionKind(gv.group, gv.version, kind)
    case Failure(_) => GroupVersionKind("", "", kind)
  }
}
