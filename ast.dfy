/**
 * The value types of the AST in `Ast/LangElement.cs`: the `Scope` generation counter, the
 * name references with their `HasValue` tests, `QualifiedNameRef.FromTypeRef`, and the
 * property bag every `AstNode` carries.
 */
module Ast {
  import opened Machine
  import opened Syntax

  // ----- Scope -----

  /** The starts of the three `Scope` sentinels. */
  const INVALID_SCOPE_START: int32 := -1
  const GLOBAL_SCOPE_START: int32 := 0
  const IGNORE_SCOPE_START: int32 := 0x7fff_ffff

  /**
   * `Scope`: a mutable struct holding one `int`. `Increment` changes it in place with C#'s
   * default unchecked arithmetic, so Int32.MaxValue steps to Int32.MinValue.
   */
  class Scope {
    var start: int32

    constructor (start: int32)
      ensures this.start == start
    {
      this.start := start;
    }

    /** `Scope.Invalid`; reading the static field copies the struct. */
    static method Invalid() returns (s: Scope)
      ensures fresh(s) && s.start == INVALID_SCOPE_START && !s.IsValid()
    {
      s := new Scope(INVALID_SCOPE_START);
    }

    /** `Scope.Global`. */
    static method Global() returns (s: Scope)
      ensures fresh(s) && s.start == GLOBAL_SCOPE_START && s.IsGlobal() && s.IsValid()
    {
      s := new Scope(GLOBAL_SCOPE_START);
    }

    /** `Scope.Ignore`: valid, and not global. */
    static method Ignore() returns (s: Scope)
      ensures fresh(s) && s.start == IGNORE_SCOPE_START && s.IsValid() && !s.IsGlobal()
    {
      s := new Scope(IGNORE_SCOPE_START);
    }

    predicate IsGlobal()
      reads this
    {
      start == 0
    }

    predicate IsValid()
      reads this
    {
      start >= 0
    }

    /**
     * `Increment`: the start grows by one, except that Int32.MaxValue wraps round to
     * Int32.MinValue; so incrementing `Ignore` yields an invalid scope.
     */
    method Increment()
      modifies this
      ensures start == NextStart(old(start))
      ensures IsValid() <==> -1 <= old(start) as int < INT32_MAX
      ensures IsGlobal() <==> old(start) == INVALID_SCOPE_START
    {
      start := Wrap32(start as int + 1);
      NextStartValid(old(start));
    }
  }

  /** The start `start++` leaves behind in unchecked 32-bit arithmetic. */
  function NextStart(start: int32): (r: int32)
    ensures start as int < INT32_MAX ==> r as int == start as int + 1
    ensures start as int == INT32_MAX ==> r as int == INT32_MIN
  {
    Wrap32(start as int + 1)
  }

  /** An increment lands on a valid start exactly from -1 up to Int32.MaxValue - 1. */
  lemma NextStartValid(start: int32)
    ensures NextStart(start) >= 0 <==> -1 <= start as int < INT32_MAX
    ensures NextStart(start) == 0 <==> start == -1
  {
  }

  /** Incrementing `Ignore` makes it invalid; incrementing `Invalid` makes it global. */
  lemma SentinelIncrements()
    ensures NextStart(IGNORE_SCOPE_START) < 0
    ensures NextStart(INVALID_SCOPE_START) == GLOBAL_SCOPE_START
  {
  }

  // ----- names -----

  /** `Name`: a struct around a string that may be null. */
  datatype Name = Name(value: Option<string>)

  /** `Name.EmptyBaseName`, the name of the empty string. */
  const EMPTY_BASE_NAME: Name := Name(Some(""))

  /** `NameRef`: a name and the span it occupies. */
  datatype NameRef = NameRef(span: Span, name: Name)

  /** `NameRef.Invalid`: the invalid span with the empty base name. */
  const INVALID_NAME_REF: NameRef := NameRef(INVALID_SPAN, EMPTY_BASE_NAME)

  /** `!string.IsNullOrEmpty(s)`. */
  predicate NonEmpty(s: Option<string>)
  {
    s.Some? && s.value != ""
  }

  /** `NameRef.HasValue`. */
  function NameRefHasValue(n: NameRef): (b: bool)
    ensures b <==> exists c, rest :: n.name.value == Some([c] + rest)
  {
    var has := NonEmpty(n.name.value);
    if has then
      var s := n.name.value.value;
      assert s == [s[0]] + s[1..];
      has
    else has
  }

  /** `QualifiedName`: a base name and the namespaces in front of it (a possibly null array). */
  datatype QualifiedName = QualifiedName(name: Name, namespaces: Option<seq<Name>>)

  /** `QualifiedNameRef`: a qualified name and its span. */
  datatype QualifiedNameRef = QualifiedNameRef(span: Span, qualifiedName: QualifiedName)

  /** `QualifiedNameRef.Invalid`: the invalid span, the empty base name and `Name.EmptyNames`. */
  const INVALID_QUALIFIED_NAME_REF: QualifiedNameRef :=
    QualifiedNameRef(INVALID_SPAN, QualifiedName(EMPTY_BASE_NAME, Some([])))

  /** `QualifiedNameRef.HasValue`: a non-empty base name, or at least one namespace. */
  function QualifiedNameRefHasValue(q: QualifiedNameRef): (b: bool)
    ensures !b <==> (q.qualifiedName.name.value in {None, Some("")}) &&
                    (q.qualifiedName.namespaces in {None, Some([])})
  {
    NonEmpty(q.qualifiedName.name.value) ||
    (q.qualifiedName.namespaces.Some? && |q.qualifiedName.namespaces.value| != 0)
  }

  /** Neither invalid reference has a value. */
  lemma InvalidRefsHaveNoValue()
    ensures !NameRefHasValue(INVALID_NAME_REF)
    ensures !QualifiedNameRefHasValue(INVALID_QUALIFIED_NAME_REF)
  {
  }

  /** A qualified name with an empty base name has a value exactly when it names a namespace. */
  lemma QualifiedHasValueFromNamespaces(span: Span, namespaces: seq<Name>)
    ensures QualifiedNameRefHasValue(QualifiedNameRef(span, QualifiedName(EMPTY_BASE_NAME, Some(namespaces))))
            <==> namespaces != []
  {
  }

  /** The kinds of `TypeRef` `FromTypeRef` tells apart. */
  datatype TypeRef =
    | DirectTypeRef(span: Span, className: QualifiedName)
    | OtherTypeRef(span: Span)

  /** A call that returns a value or throws ArgumentException. */
  datatype Converted<+T> = Returned(value: T) | ArgumentError

  /**
   * `QualifiedNameRef.FromTypeRef(tref)`: a direct type reference gives its span and class
   * name, a null reference gives `Invalid`, anything else throws.
   */
  function FromTypeRef(tref: Option<TypeRef>): (r: Converted<QualifiedNameRef>)
    ensures r.ArgumentError? <==> tref.Some? && !tref.value.DirectTypeRef?
    ensures r.Returned? && tref.Some? ==> r.value.span == tref.value.span
    ensures r.Returned? ==> (QualifiedNameRefHasValue(r.value) <==>
                             tref.Some? && QualifiedNameRefHasValue(QualifiedNameRef(INVALID_SPAN, tref.value.className)))
  {
    match tref
    case Some(DirectTypeRef(span, className)) => Returned(QualifiedNameRef(span, className))
    case None => Returned(INVALID_QUALIFIED_NAME_REF)
    case Some(OtherTypeRef(_)) => ArgumentError
  }

  /** `FromTypeRef` keeps a direct reference's class name, so converting back gives the reference. */
  lemma FromTypeRefRoundTrip(span: Span, className: QualifiedName)
    ensures var r := FromTypeRef(Some(DirectTypeRef(span, className)));
            r.Returned? && DirectTypeRef(r.value.span, r.value.qualifiedName) == DirectTypeRef(span, className)
  {
  }

  // ----- the property bag -----

  /**
   * A property key: an explicit key object, or the type of the value (`SetProperty<T>`
   * stores one value per type). A type is identified by its name.
   */
  datatype PropertyKey<K> = ByKey(key: K) | ByType(typeName: string)

  /** What a read of `key` yields: the stored value, or nothing (null, or `default(T)`). */
  function Lookup<K(==), V>(bag: map<PropertyKey<K>, V>, key: PropertyKey<K>): (r: Option<V>)
    ensures r.Some? <==> key in bag
    ensures r.Some? ==> r.value == bag[key]
  {
    if key in bag then Some(bag[key]) else None
  }

  /**
   * `AstNode`: every `IPropertyCollection` operation is forwarded unchanged to the node's
   * `_properties` collection, modelled here as the map it holds.
   */
  class AstNode<K(==), V> {
    var properties: map<PropertyKey<K>, V>

    constructor ()
      ensures properties == map[]
    {
      properties := map[];
    }

    /** `SetProperty(key, value)`. */
    method SetProperty(key: K, value: V)
      modifies this
      ensures properties == old(properties)[ByKey(key) := value]
    {
      properties := properties[ByKey(key) := value];
    }

    /** `GetProperty(key)`. */
    method GetProperty(key: K) returns (value: Option<V>)
      ensures value == Lookup(properties, ByKey(key))
    {
      if ByKey(key) in properties {
        return Some(properties[ByKey(key)]);
      }
      return None;
    }

    /** `SetProperty<T>(value)`, with T named by `typeName`. */
    method SetPropertyOfType(typeName: string, value: V)
      modifies this
      ensures properties == old(properties)[ByType(typeName) := value]
    {
      properties := properties[ByType(typeName) := value];
    }

    /** `GetProperty<T>()`. */
    method GetPropertyOfType(typeName: string) returns (value: Option<V>)
      ensures value == Lookup(properties, ByType(typeName))
    {
      if ByType(typeName) in properties {
        return Some(properties[ByType(typeName)]);
      }
      return None;
    }

    /** `TryGetProperty(key, out value)`. */
    method TryGetProperty(key: K) returns (found: bool, value: Option<V>)
      ensures found <==> ByKey(key) in properties
      ensures value == Lookup(properties, ByKey(key))
    {
      value := GetProperty(key);
      found := value.Some?;
    }

    /** `TryGetProperty<T>(out value)`. */
    method TryGetPropertyOfType(typeName: string) returns (found: bool, value: Option<V>)
      ensures found <==> ByType(typeName) in properties
      ensures value == Lookup(properties, ByType(typeName))
    {
      value := GetPropertyOfType(typeName);
      found := value.Some?;
    }

    /** `RemoveProperty(key)`: reports whether the key was present. */
    method RemoveProperty(key: K) returns (removed: bool)
      modifies this
      ensures removed <==> ByKey(key) in old(properties)
      ensures properties == old(properties) - {ByKey(key)}
    {
      removed := ByKey(key) in properties;
      properties := properties - {ByKey(key)};
    }

    /** `RemoveProperty<T>()`. */
    method RemovePropertyOfType(typeName: string) returns (removed: bool)
      modifies this
      ensures removed <==> ByType(typeName) in old(properties)
      ensures properties == old(properties) - {ByType(typeName)}
    {
      removed := ByType(typeName) in properties;
      properties := properties - {ByType(typeName)};
    }

    /** `ClearProperties()`. */
    method ClearProperties()
      modifies this
      ensures properties == map[]
    {
      properties := map[];
    }

    /** The indexer's getter: the same as `GetProperty(key)`. */
    method GetItem(key: K) returns (value: Option<V>)
      ensures value == Lookup(properties, ByKey(key))
    {
      value := GetProperty(key);
    }

    /** The indexer's setter: the same as `SetProperty(key, value)`. */
    method SetItem(key: K, value: V)
      modifies this
      ensures properties == old(properties)[ByKey(key) := value]
    {
      SetProperty(key, value);
    }
  }

  /** A read after a write sees the written value at that key and the old value at every other key. */
  lemma LookupAfterSet<K, V>(bag: map<PropertyKey<K>, V>, written: PropertyKey<K>, value: V, key: PropertyKey<K>)
    ensures Lookup(bag[written := value], key) == if key == written then Some(value) else Lookup(bag, key)
  {
  }

  /** A read after a removal finds nothing at that key and the old value at every other key. */
  lemma LookupAfterRemove<K, V>(bag: map<PropertyKey<K>, V>, removed: PropertyKey<K>, key: PropertyKey<K>)
    ensures Lookup(bag - {removed}, key) == if key == removed then None else Lookup(bag, key)
  {
  }

  /**
   * In this model explicit keys and type names are two disjoint key spaces (`PropertyKey`),
   * so storing by type leaves every explicit key's value alone. This is a property of that
   * representation, not something `PropertyCollection` itself is known to promise.
   */
  lemma TypeAndKeyAreIndependent<K, V>(bag: map<PropertyKey<K>, V>, typeName: string, value: V, key: K)
    ensures Lookup(bag[ByType(typeName) := value], ByKey(key)) == Lookup(bag, ByKey(key))
  {
  }
}
