/** The metadata carriers of pkg/meta/v1/meta.go: records whose pointer-receiver setters
    overwrite fields in place, modelled as classes. */
module MetaV1 {
  import opened Wrappers
  import Strings
  import Scheme
  import SchemeProperties

  /** Go's int64 and uint64: the setters only store values, so no arithmetic is modelled. */
  newtype int64 = x: int | -0x8000_0000_0000_0000 <= x < 0x8000_0000_0000_0000
  newtype uint64 = x: int | 0 <= x < 0x1_0000_0000_0000_0000

  /** List metadata: the total number of items a list query matched. */
  class ListMeta {
    var totalCount: int64

    /** The composite literal ListMeta{TotalCount: totalCount}. */
    constructor (totalCount: int64)
      ensures this.totalCount == totalCount
    {
      this.totalCount := totalCount;
    }

    function GetTotalCount(): int64
      reads this
    {
      totalCount
    }

    method SetTotalCount(count: int64)
      modifies this`totalCount
      ensures GetTotalCount() == count
    {
      totalCount := count;
    }
  }

  /** The serialization tag: a group-version-kind stored as two plain strings. */
  class TypeMeta {
    var apiVersion: string
    var kind: string

    /** The composite literal TypeMeta{APIVersion: apiVersion, Kind: kind}. */
    constructor (apiVersion: string, kind: string)
      ensures this.apiVersion == apiVersion && this.kind == kind
    {
      this.apiVersion := apiVersion;
      this.kind := kind;
    }

    /** The stored identity, read through the group-version parser: the kind is always
        kept; an API version with two or more `/` keeps nothing else. */
    function GroupVersionKind(): (r: Scheme.GroupVersionKind)
      reads this
      ensures r.kind == kind
      ensures Strings.Count(apiVersion, '/') <= 1 ==>
        Scheme.ParseGroupVersion(apiVersion) == Success(r.GroupVersion())
      ensures Strings.Count(apiVersion, '/') >= 2 ==> r.group == "" && r.version == ""
    {
      Scheme.FromAPIVersionAndKind(apiVersion, kind)
    }

    /** Stamps an identity: both fields are overwritten at once; an identity whose group and
        version have no `/` is read back unchanged. */
    method SetGroupVersionKind(gvk: Scheme.GroupVersionKind)
      modifies this
      ensures (apiVersion, kind) == gvk.ToAPIVersionAndKind()
      ensures gvk.Empty() ==> apiVersion == "" && kind == ""
      ensures '/' !in gvk.group && '/' !in gvk.version ==> GroupVersionKind() == gvk
    {
      var (v, k) := gvk.ToAPIVersionAndKind();
      apiVersion, kind := v, k;
      if '/' !in gvk.group && '/' !in gvk.version {
        SchemeProperties.APIVersionRoundTrip(gvk);
      }
    }

    function GetAPIVersion(): string
      reads this
    {
      apiVersion
    }

    method SetAPIVersion(version: string)
      modifies this`apiVersion
      ensures GetAPIVersion() == version && GetKind() == old(GetKind())
    {
      apiVersion := version;
    }

    function GetKind(): string
      reads this
    {
      kind
    }

    method SetKind(kind: string)
      modifies this`kind
      ensures GetKind() == kind && GetAPIVersion() == old(GetAPIVersion())
    {
      this.kind := kind;
    }
  }

  /** Object metadata: identity, name and two timestamps. Time stands for Go's time.Time,
      whose contents are not modelled. */
  class ObjectMeta<Time> {
    var id: uint64
    var name: string
    var createdAt: Time
    var updatedAt: Time

    /** The composite literal ObjectMeta{ID: id, Name: name, CreatedAt: ..., UpdatedAt: ...}. */
    constructor (id: uint64, name: string, createdAt: Time, updatedAt: Time)
      ensures this.id == id && this.name == name
      ensures this.createdAt == createdAt && this.updatedAt == updatedAt
    {
      this.id := id;
      this.name := name;
      this.createdAt := createdAt;
      this.updatedAt := updatedAt;
    }

    function GetID(): uint64
      reads this
    {
      id
    }

    method SetID(id: uint64)
      modifies this`id
      ensures GetID() == id
      ensures GetName() == old(GetName())
      ensures GetCreatedAt() == old(GetCreatedAt()) && GetUpdatedAt() == old(GetUpdatedAt())
    {
      this.id := id;
    }

    function GetName(): string
      reads this
    {
      name
    }

    method SetName(name: string)
      modifies this`name
      ensures GetName() == name
      ensures GetID() == old(GetID())
      ensures GetCreatedAt() == old(GetCreatedAt()) && GetUpdatedAt() == old(GetUpdatedAt())
    {
      this.name := name;
    }

    function GetCreatedAt(): Time
      reads this
    {
      createdAt
    }

    method SetCreatedAt(createdAt: Time)
      modifies this`createdAt
      ensures GetCreatedAt() == createdAt
      ensures GetID() == old(GetID()) && GetName() == old(GetName())
      ensures GetUpdatedAt() == old(GetUpdatedAt())
    {
      this.createdAt := createdAt;
    }

    function GetUpdatedAt(): Time
      reads this
    {
      updatedAt
    }

    method SetUpdatedAt(updatedAt: Time)
      modifies this`updatedAt
      ensures GetUpdatedAt() == updatedAt
      ensures GetID() == old(GetID()) && GetName() == old(GetName())
      ensures GetCreatedAt() == old(GetCreatedAt())
    {
      this.updatedAt := updatedAt;
    }
  }
}
