/**
  The device record of the model package: the `Device` row, the `UUID` string
  type, and the per-field tags. The `mapKey` tags decide which fields enter the
  sparse update map and under which key; the `gorm` column tags name the
  storage columns that such a map sets.
 */
module DeviceModel {
  import opened Common

  /** The device identity: a string newtype. */
  datatype UUID = UUID(raw: string) {

    /** The underlying string, unchanged. */
    function String(): (s: string)
      ensures UUID(s) == this
    {
      raw
    }
  }

  /** One stored device. */
  datatype Device = Device(
    id: UUID,
    model: string,
    color: string,
    version: string,
    createTime: Int64,
    updateTime: Int64)

  /** The zero value `Device{}`. */
  const Zero: Device := Device(UUID(""), "", "", "", 0, 0)

  /** The value whose only non-zero field is the identity. */
  function IdOnly(id: UUID): (d: Device)
    ensures d.id == id
  {
    Device(id, "", "", "", 0, 0)
  }

  /** The fields of `Device`, one constructor each. */
  datatype Field = IdField | ModelField | ColorField | VersionField | CreateTimeField | UpdateTimeField

  /** The fields in declaration order. */
  const Fields: seq<Field> := [IdField, ModelField, ColorField, VersionField, CreateTimeField, UpdateTimeField]

  /** A field's value, read generically. */
  datatype Value = Text(s: string) | Int(n: Int64)

  function FieldValue(d: Device, f: Field): Value
  {
    match f
    case IdField => Text(d.id.raw)
    case ModelField => Text(d.model)
    case ColorField => Text(d.color)
    case VersionField => Text(d.version)
    case CreateTimeField => Int(d.createTime)
    case UpdateTimeField => Int(d.updateTime)
  }

  /** Go's zero value of a field's type: the empty string or 0. */
  predicate IsZero(v: Value)
  {
    match v
    case Text(s) => s == ""
    case Int(n) => n == 0
  }

  /** Whether a field holds text (otherwise it holds an integer). */
  predicate IsTextField(f: Field)
  {
    f in {IdField, ModelField, ColorField, VersionField}
  }

  /** The storage column of each field, from its `gorm:"column:…"` tag. */
  function ColumnName(f: Field): string
  {
    match f
    case IdField => "id"
    case ModelField => "model"
    case ColorField => "color"
    case VersionField => "version"
    case CreateTimeField => "create_time"
    case UpdateTimeField => "update_time"
  }

  /** A `mapKey` tag: `ignore`, or a key name with an optional `omitempty`. */
  datatype MapKeyTag = Ignore | Key(name: string, omitEmpty: bool)

  /** The `mapKey` tag of each field. */
  function MapKey(f: Field): MapKeyTag
  {
    match f
    case IdField => Ignore
    case ModelField => Key("model", true)
    case ColorField => Key("color", true)
    case VersionField => Key("version", true)
    case CreateTimeField => Ignore
    case UpdateTimeField => Key("update_time", false)
  }

  /** A field enters the update map unless it is ignored, or omitempty and zero. */
  predicate Included(d: Device, f: Field)
  {
    match MapKey(f)
    case Ignore => false
    case Key(_, omitEmpty) => !(omitEmpty && IsZero(FieldValue(d, f)))
  }

  /** The keys the `mapKey` tags name. */
  const TagNames: set<string> := {"model", "color", "version", "update_time"}

  /** The tags name four distinct keys, each the storage column of its field. */
  lemma KeyNames(f: Field, g: Field)
    requires MapKey(f).Key? && MapKey(g).Key?
    ensures MapKey(f).name in TagNames && MapKey(f).name == ColumnName(f)
    ensures MapKey(f).name == MapKey(g).name ==> f == g
  {
  }

  /**
    The map built by visiting `fs` in order and setting the key of every
    included field to that field's value: a tagged key is present exactly when
    its field is visited and included.
   */
  function SparseMap(d: Device, fs: seq<Field>): (m: map<string, Value>)
    ensures forall f :: MapKey(f).Key? ==> (MapKey(f).name in m <==> f in fs && Included(d, f))
    ensures forall f :: f in fs && Included(d, f) ==> m[MapKey(f).name] == FieldValue(d, f)
    ensures m.Keys <= TagNames
  {
    if fs == [] then map[]
    else
      var m := SparseMap(d, fs[..|fs| - 1]);
      var f := fs[|fs| - 1];
      assert fs == fs[..|fs| - 1] + [f];
      assert forall g :: MapKey(g).Key? && Included(d, f) && MapKey(g).name == MapKey(f).name ==> g == f by {
        forall g | MapKey(g).Key? && Included(d, f)
          ensures MapKey(g).name == MapKey(f).name ==> g == f
        {
          KeyNames(g, f);
        }
      }
      assert Included(d, f) ==> MapKey(f).name in TagNames by {
        if Included(d, f) {
          KeyNames(f, f);
        }
      }
      if Included(d, f) then m[MapKey(f).name := FieldValue(d, f)] else m
  }

  /**
    The sparse update map of a patch: `update_time` always, each of `model`,
    `color` and `version` exactly when non-empty, never `id` or `create_time`.
   */
  function UpdateMap(d: Device): (m: map<string, Value>)
    ensures "id" !in m && "create_time" !in m
    ensures "update_time" in m && m["update_time"] == Int(d.updateTime)
    ensures ("model" in m <==> d.model != "") && ("model" in m ==> m["model"] == Text(d.model))
    ensures ("color" in m <==> d.color != "") && ("color" in m ==> m["color"] == Text(d.color))
    ensures ("version" in m <==> d.version != "") && ("version" in m ==> m["version"] == Text(d.version))
    ensures m.Keys <= TagNames
  {
    var m := SparseMap(d, Fields);
    assert MapKey(ModelField).Key? && MapKey(ColorField).Key? && MapKey(VersionField).Key? && MapKey(UpdateTimeField).Key?;
    assert ModelField in Fields && ColorField in Fields && VersionField in Fields && UpdateTimeField in Fields;
    m
  }
}
