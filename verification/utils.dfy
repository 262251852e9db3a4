/** Field naming and field extraction (gql/utils.go). */
module Utils {
  import opened Results
  import opened Strings
  import opened Values

  /** The path separator: the only non-alphanumeric character a GraphQL name
      may contain, so it is stripped from every generated field name. */
  const FieldPathSeparator: char := '_'

  const NilTypePanic := "runtime error: invalid memory address or nil pointer dereference"
  const UnexportedPanic := "reflect.Value.Interface: cannot return value obtained from unexported field or method"

  predicate IsLetter(c: char) { 'A' <= c <= 'Z' || 'a' <= c <= 'z' }

  predicate IsDigit(c: char) { '0' <= c <= '9' }

  /** The Names grammar of the GraphQL specification (October 2016, section
      2.1.9): a letter or `_`, then letters, digits and `_`. */
  predicate NameIsValidGraphQL(name: string): (r: bool)
    ensures r ==> |name| > 0 && !IsDigit(name[0])
    ensures r ==> forall i :: 0 <= i < |name| ==> IsNameChar(name[i])
  {
    && |name| > 0
    && (name[0] == '_' || IsLetter(name[0]))
    && forall i :: 1 <= i < |name| ==> IsNameChar(name[i])
  }

  predicate IsNameChar(c: char) { c == '_' || IsLetter(c) || IsDigit(c) }

  /** The grammar read left to right: a one-character name is valid exactly
      when it is `_` or a letter, and a valid name stays valid exactly when it
      is extended by a name character. */
  lemma NameGrammar(name: string, c: char)
    ensures NameIsValidGraphQL([c]) <==> c == '_' || IsLetter(c)
    ensures |name| > 0 ==> (NameIsValidGraphQL(name + [c]) <==> NameIsValidGraphQL(name) && IsNameChar(c))
  {
    if |name| > 0 {
      var s := name + [c];
      assert forall i :: 0 <= i < |name| ==> s[i] == name[i];
      assert s[|name|] == c;
      if NameIsValidGraphQL(name) && IsNameChar(c) {
        assert forall i :: 1 <= i < |s| ==> IsNameChar(s[i]);
      }
    }
  }

  /** The external name of a struct field, from its `json` tag and Go name.
      The result is "" for the skip marker, the tag's name segment without
      separators when that is a valid GraphQL name, and otherwise the Go name
      lower-cased without separators. */
  function FieldName(jsonTag: string, goName: string): (r: string)
    ensures FieldPathSeparator !in r
  {
    var splits := Split(jsonTag, ',');
    var name := splits[0];
    if name == "-" && |splits| == 1 then ""
    else
      var stripped := Remove(name, FieldPathSeparator);
      if stripped != "" && NameIsValidGraphQL(stripped) then stripped
      else LowerFallback(goName)
  }

  /** The external name never contains the separator; it is "", a valid
      GraphQL name, or the Go name lower-cased without separators. */
  lemma FieldNameShape(jsonTag: string, goName: string)
    ensures FieldPathSeparator !in FieldName(jsonTag, goName)
    ensures var r := FieldName(jsonTag, goName);
            r == "" || NameIsValidGraphQL(r) || r == ToLower(Remove(goName, FieldPathSeparator))
  {
  }

  /** The fallback name: the Go name lower-cased with separators removed. */
  function LowerFallback(goName: string): (r: string)
    ensures r == ToLower(Remove(goName, FieldPathSeparator))
    ensures FieldPathSeparator !in r
    ensures |r| == |Remove(goName, FieldPathSeparator)|
  {
    var s := Remove(goName, FieldPathSeparator);
    var r := ToLower(s);
    assert forall i :: 0 <= i < |r| ==> r[i] != FieldPathSeparator by {
      forall i | 0 <= i < |r| ensures r[i] != FieldPathSeparator {
        assert s[i] in s;
      }
    }
    r
  }

  /** A tag written as a name followed by options (",omitempty", ...). */
  lemma TagNameSegment(tagName: string, options: string)
    requires ',' !in tagName
    requires options == "" || options[0] == ','
    ensures Split(tagName + options, ',')[0] == tagName
    ensures |Split(tagName + options, ',')| == 1 <==> options == ""
  {
    SplitNoSep(tagName, ',');
    if options == "" {
      assert tagName + options == tagName;
    } else {
      assert tagName + options == tagName + [','] + options[1..];
      SplitConcat(tagName, options[1..], ',');
    }
  }

  /** The field is skipped exactly when its whole tag is "-"; a tag such as
      "-," names the field after its Go name instead. */
  lemma FieldNameSkipped(jsonTag: string, goName: string)
    requires exists c :: c in goName && c != FieldPathSeparator
    ensures FieldName(jsonTag, goName) == "" <==> jsonTag == "-"
  {
    var splits := Split(jsonTag, ',');
    JoinSplit(jsonTag, ',');
    if jsonTag == "-" {
      TagNameSegment("-", "");
    } else {
      var c :| c in goName && c != FieldPathSeparator;
      assert c in Remove(goName, FieldPathSeparator);
    }
  }

  /** A usable tag name wins, separators removed and letter case kept;
      otherwise the lower-cased Go name is used. */
  lemma FieldNameFromTag(tagName: string, options: string, goName: string)
    requires ',' !in tagName
    requires options == "" || options[0] == ','
    requires tagName + options != "-"
    ensures var stripped := Remove(tagName, FieldPathSeparator);
            FieldName(tagName + options, goName)
            == if stripped != "" && NameIsValidGraphQL(stripped) then stripped
               else ToLower(Remove(goName, FieldPathSeparator))
  {
    TagNameSegment(tagName, options);
    if tagName == "-" {
      assert options != "";
    }
  }

  /** `fullFieldName`: a name qualified by its parent's path. */
  function FullFieldName(name: string, parent: string): (r: string)
    ensures |r| == |parent| + 1 + |name|
    ensures r[..|parent|] == parent && r[|parent|] == FieldPathSeparator && r[|parent| + 1..] == name
  {
    parent + [FieldPathSeparator] + name
  }

  /** Splitting a qualified name gives the parent's path plus the name. */
  lemma FullFieldNameSplits(name: string, parent: string)
    requires FieldPathSeparator !in name
    ensures Split(FullFieldName(name, parent), FieldPathSeparator) == Split(parent, FieldPathSeparator) + [name]
  {
    SplitConcat(parent, name, FieldPathSeparator);
    SplitNoSep(name, FieldPathSeparator);
  }

  /** A field that can be looked up by name: exported, with that external name. */
  predicate IsDirect(f: FieldVal, key: string) {
    Exported(f.name) && HasName(f, key)
  }

  /** An embedded struct whose fields are searched after the direct fields. */
  predicate IsEmbed(f: FieldVal) {
    f.anonymous && Exported(f.name)
  }

  /** No field of `fs` before index `i` is a direct match for `key`. */
  predicate NoDirectBefore(fs: seq<FieldVal>, key: string, i: int) {
    forall j :: 0 <= j < i && j < |fs| ==> !IsDirect(fs[j], key)
  }

  /** The index of the first direct match at or after `i`. */
  function FirstDirect(fs: seq<FieldVal>, key: string, i: nat): (r: Option<nat>)
    requires i <= |fs|
    requires NoDirectBefore(fs, key, i)
    ensures r.Some? ==> i <= r.value < |fs| && IsDirect(fs[r.value], key) && NoDirectBefore(fs, key, r.value)
    ensures r.None? ==> NoDirectBefore(fs, key, |fs|)
    decreases |fs| - i
  {
    if i == |fs| then None
    else if IsDirect(fs[i], key) then Some(i)
    else FirstDirect(fs, key, i + 1)
  }

  /** `ExtractField`: the value of the field of a struct whose external name
      is `key`.  Direct fields are tried first, in declaration order; then the
      embedded structs, in declaration order, and the first non-nil result is
      returned.  VNil means "not found" (or a field that holds nil).  This is
      the corrected lookup: unexported fields never take part. */
  function ExtractField(v: Value, key: string): (r: Value)
    decreases v, 1, 0
    ensures !v.VRec? ==> r == VNil
    ensures v.VRec? ==>
      forall i :: 0 <= i < |v.fields| && IsDirect(v.fields[i], key) && NoDirectBefore(v.fields, key, i)
        ==> r == v.fields[i].value
  {
    match v
    case VRec(fs) =>
      (match FirstDirect(fs, key, 0)
       case Some(i) => fs[i].value
       case None => SearchEmbeds(v, key, 0))
    case _ => VNil
  }

  /** Without a direct match, the embedded structs are searched in
      declaration order and the first non-nil result is returned; the result
      is nil exactly when every embedded struct yields nil. */
  lemma ExtractFieldSearchesEmbeds(v: Value, key: string)
    requires v.VRec? && NoDirectBefore(v.fields, key, |v.fields|)
    ensures ExtractField(v, key) == VNil <==> EmbedsNilBefore(v, key, 0, |v.fields|)
    ensures forall i :: 0 <= i < |v.fields| && IsEmbed(v.fields[i]) && ExtractField(v.fields[i].value, key) != VNil
                        && EmbedsNilBefore(v, key, 0, i)
              ==> ExtractField(v, key) == ExtractField(v.fields[i].value, key)
  {
    assert FirstDirect(v.fields, key, 0).None?;
    SearchEmbedsFirstFound(v, key, 0);
  }

  /** Every embedded struct of `v` with index in [lo, hi) yields nil for `key`. */
  predicate EmbedsNilBefore(v: Value, key: string, lo: nat, hi: int)
    requires v.VRec?
    decreases v, 0, 0
  {
    forall j :: lo <= j < hi && j < |v.fields| && IsEmbed(v.fields[j]) ==> ExtractField(v.fields[j].value, key) == VNil
  }

  /** The embedded-struct search of ExtractField, from field index `i` on. */
  function SearchEmbeds(v: Value, key: string, i: nat): Value
    requires v.VRec? && i <= |v.fields|
    decreases v, 0, |v.fields| - i + 1
  {
    if i == |v.fields| then VNil
    else if IsEmbed(v.fields[i]) then
      var found := ExtractField(v.fields[i].value, key);
      if found != VNil then found else SearchEmbeds(v, key, i + 1)
    else SearchEmbeds(v, key, i + 1)
  }

  /** The search from index `i` yields nil exactly when every embedded struct
      from `i` on does, and otherwise the first non-nil result. */
  lemma {:induction false} SearchEmbedsFirstFound(v: Value, key: string, i: nat)
    requires v.VRec? && i <= |v.fields|
    ensures SearchEmbeds(v, key, i) == VNil <==> EmbedsNilBefore(v, key, i, |v.fields|)
    ensures forall j :: i <= j < |v.fields| && IsEmbed(v.fields[j]) && ExtractField(v.fields[j].value, key) != VNil
                        && EmbedsNilBefore(v, key, i, j)
              ==> SearchEmbeds(v, key, i) == ExtractField(v.fields[j].value, key)
    decreases |v.fields| - i
  {
    var ys := EmbedResults(v, key);
    SearchIsFirstNonNil(v, key, i);
    FirstNonNilFound(ys, i);
    assert EmbedsNilBefore(v, key, i, |v.fields|) <==> AllNil(ys, i, |ys|);
    forall j | i <= j < |v.fields| && IsEmbed(v.fields[j]) && ExtractField(v.fields[j].value, key) != VNil
               && EmbedsNilBefore(v, key, i, j)
      ensures SearchEmbeds(v, key, i) == ExtractField(v.fields[j].value, key)
    {
      assert ys[j] == ExtractField(v.fields[j].value, key);
      assert AllNil(ys, i, j);
    }
  }

  /** What each field contributes to the embedded-struct search: the
      embedded struct's own lookup, nil for any other field. */
  function EmbedResults(v: Value, key: string): (ys: seq<Value>)
    requires v.VRec?
    ensures |ys| == |v.fields|
    ensures forall j :: 0 <= j < |ys| ==> ys[j] == if IsEmbed(v.fields[j]) then ExtractField(v.fields[j].value, key) else VNil
    decreases v, 0, 0
  {
    seq(|v.fields|, j requires 0 <= j < |v.fields| =>
      if IsEmbed(v.fields[j]) then ExtractField(v.fields[j].value, key) else VNil)
  }

  predicate AllNil(ys: seq<Value>, lo: nat, hi: int) {
    forall j :: lo <= j < hi && j < |ys| ==> ys[j] == VNil
  }

  /** The first non-nil value from index `i` on, nil if there is none. */
  function FirstNonNil(ys: seq<Value>, i: nat): Value
    requires i <= |ys|
    decreases |ys| - i
  {
    if i == |ys| then VNil else if ys[i] != VNil then ys[i] else FirstNonNil(ys, i + 1)
  }

  lemma {:induction false} FirstNonNilFound(ys: seq<Value>, i: nat)
    requires i <= |ys|
    ensures FirstNonNil(ys, i) == VNil <==> AllNil(ys, i, |ys|)
    ensures forall j :: i <= j < |ys| && ys[j] != VNil && AllNil(ys, i, j) ==> FirstNonNil(ys, i) == ys[j]
    decreases |ys| - i
  {
    if i < |ys| {
      FirstNonNilFound(ys, i + 1);
      if ys[i] == VNil {
        forall j | i <= j < |ys| && ys[j] != VNil && AllNil(ys, i, j) ensures FirstNonNil(ys, i) == ys[j] {
          assert AllNil(ys, i + 1, j);
        }
      }
    }
  }

  /** The embedded-struct search is the first non-nil contribution. */
  lemma {:induction false} SearchIsFirstNonNil(v: Value, key: string, i: nat)
    requires v.VRec? && i <= |v.fields|
    ensures SearchEmbeds(v, key, i) == FirstNonNil(EmbedResults(v, key), i)
    decreases |v.fields| - i
  {
    if i < |v.fields| {
      SearchIsFirstNonNil(v, key, i + 1);
    }
  }

  /** ExtractField exactly as gql/utils.go writes it; `Err` stands for the
      runtime panic.  reflect.TypeOf(nil).Kind() panics on a nil input, and
      Value.Interface() panics on a field reached through an unexported
      field, whether it is the matching field or an embedded struct that the
      search walks into. */
  function ExtractFieldAsWritten(v: Value, key: string): (r: Result<Value>)
    decreases v, 1, 0
    ensures v.VNil? ==> r.Err?
    ensures !v.VNil? && !v.VRec? ==> r == Ok(VNil)
  {
    match v
    case VNil => Err(NilTypePanic)
    case VRec(fs) =>
      (match FirstNamed(fs, key, 0)
       case Some(i) => if Exported(fs[i].name) then Ok(fs[i].value) else Err(UnexportedPanic)
       case None => SearchEmbedsAsWritten(v, key, 0))
    case _ => Ok(VNil)
  }

  /** The index of the first field at or after `i` whose external name is
      `key`, exported or not. */
  function FirstNamed(fs: seq<FieldVal>, key: string, i: nat): (r: Option<nat>)
    requires i <= |fs|
    requires NoNamedBefore(fs, key, i)
    ensures r.Some? ==> i <= r.value < |fs| && HasName(fs[r.value], key) && NoNamedBefore(fs, key, r.value)
    ensures r.None? ==> NoNamedBefore(fs, key, |fs|)
    decreases |fs| - i
  {
    if i == |fs| then None
    else if HasName(fs[i], key) then Some(i)
    else FirstNamed(fs, key, i + 1)
  }

  /** The field's external name is `key`. */
  predicate HasName(f: FieldVal, key: string) {
    FieldName(f.jsonTag, f.name) == key
  }

  /** No field of `fs` before index `i` has the external name `key`. */
  predicate NoNamedBefore(fs: seq<FieldVal>, key: string, i: int) {
    forall j :: 0 <= j < i && j < |fs| ==> !HasName(fs[j], key)
  }

  /** The embedded-struct search as written: every anonymous field is
      entered, exported or not. */
  function SearchEmbedsAsWritten(v: Value, key: string, i: nat): (r: Result<Value>)
    requires v.VRec? && i <= |v.fields|
    decreases v, 0, |v.fields| - i
  {
    if i == |v.fields| then Ok(VNil)
    else if v.fields[i].anonymous then
      if !Exported(v.fields[i].name) then Err(UnexportedPanic)
      else
        match ExtractFieldAsWritten(v.fields[i].value, key)
        case Err(m) => Err(m)
        case Ok(found) => if found != VNil then Ok(found) else SearchEmbedsAsWritten(v, key, i + 1)
    else SearchEmbedsAsWritten(v, key, i + 1)
  }

  /** Wherever the lookup as written does not panic, the corrected lookup
      returns the same value. */
  lemma {:induction false} AsWrittenAgrees(v: Value, key: string)
    ensures ExtractFieldAsWritten(v, key).Ok? ==> ExtractFieldAsWritten(v, key).value == ExtractField(v, key)
    decreases v, 1, 0
  {
    if v.VRec? {
      var fs := v.fields;
      match FirstNamed(fs, key, 0)
      case Some(i) =>
        if Exported(fs[i].name) {
          assert IsDirect(fs[i], key) && NoDirectBefore(fs, key, i);
        }
      case None =>
        assert NoDirectBefore(fs, key, |fs|);
        SearchAgrees(v, key, 0);
    }
  }

  lemma {:induction false} SearchAgrees(v: Value, key: string, i: nat)
    requires v.VRec? && i <= |v.fields|
    ensures SearchEmbedsAsWritten(v, key, i).Ok? ==> SearchEmbedsAsWritten(v, key, i).value == SearchEmbeds(v, key, i)
    decreases v, 0, |v.fields| - i
  {
    if i < |v.fields| {
      if v.fields[i].anonymous && Exported(v.fields[i].name) {
        AsWrittenAgrees(v.fields[i].value, key);
      }
      SearchAgrees(v, key, i + 1);
    }
  }

  /** A struct that embeds an unexported struct, as `testDoubleEmbed` in the
      package's tests embeds `testUnexported`. */
  function UnexportedEmbedExample(): Value {
    VRec([FieldVal("Extra", "", false, VStr("x")),
          FieldVal("testUnexported", "", true, VRec([FieldVal("exported", "", false, VBool(true))]))])
  }

  /** Looking up a name that no field has walks into the unexported embedded
      struct and panics. */
  lemma UnexportedEmbedPanics()
    ensures ExtractFieldAsWritten(UnexportedEmbedExample(), "fieldThatIsNotThere").Err?
  {
    var v := UnexportedEmbedExample();
    var key := "fieldThatIsNotThere";
    UntaggedNameLength("Extra");
    UntaggedNameLength("testUnexported");
    assert FirstNamed(v.fields, key, 0).None?;
    assert !Exported(v.fields[1].name);
    assert SearchEmbedsAsWritten(v, key, 0) == SearchEmbedsAsWritten(v, key, 1);
  }

  /** Without a json tag the name is no longer than the Go name. */
  lemma UntaggedNameLength(goName: string)
    ensures |FieldName("", goName)| <= |goName|
  {
    assert Split("", ',') == [""];
  }

  /** The corrected lookup does not enter the unexported struct and reports
      "not found" for the same input. */
  lemma UnexportedEmbedSkipped()
    ensures ExtractField(UnexportedEmbedExample(), "fieldThatIsNotThere") == VNil
  {
    var v := UnexportedEmbedExample();
    var key := "fieldThatIsNotThere";
    UntaggedNameLength("Extra");
    assert FirstDirect(v.fields, key, 0).None?;
    assert !IsEmbed(v.fields[1]);
  }

  /** As written, the first field whose external name is `key` is returned
      through Interface(), which panics when that field is unexported; the
      embedded structs are then never searched. */
  lemma UnexportedFieldPanics(v: Value, key: string, i: nat)
    requires v.VRec? && i < |v.fields|
    requires HasName(v.fields[i], key) && NoNamedBefore(v.fields, key, i) && !Exported(v.fields[i].name)
    ensures ExtractFieldAsWritten(v, key) == Err(UnexportedPanic)
  {
    var first := FirstNamed(v.fields, key, 0);
    assert first == Some(i);
  }

  /** The corrected lookup passes over an unexported field with the name
      `key`: the first exported field with that name after it is returned,
      and without one the embedded structs are searched. */
  lemma UnexportedFieldSkipped(v: Value, key: string, i: nat)
    requires v.VRec? && i < |v.fields|
    requires HasName(v.fields[i], key) && !Exported(v.fields[i].name)
    ensures !IsDirect(v.fields[i], key)
    ensures forall j :: i < j < |v.fields| && IsDirect(v.fields[j], key) && NoDirectBefore(v.fields, key, j) ==>
              ExtractField(v, key) == v.fields[j].value
    ensures NoDirectBefore(v.fields, key, |v.fields|) ==> ExtractField(v, key) == SearchEmbeds(v, key, 0)
  {
    if NoDirectBefore(v.fields, key, |v.fields|) {
      assert FirstDirect(v.fields, key, 0).None?;
    }
  }

  /** A struct whose only field, `secret`, is unexported. */
  function UnexportedFieldExample(): Value {
    VRec([FieldVal("secret", "", false, VInt(1))])
  }

  /** Looking up `secret` panics as written; the corrected lookup reports
      "not found". */
  lemma SecretFieldLookup()
    ensures ExtractFieldAsWritten(UnexportedFieldExample(), "secret") == Err(UnexportedPanic)
    ensures ExtractField(UnexportedFieldExample(), "secret") == VNil
  {
    var v := UnexportedFieldExample();
    assert Split("", ',') == [""];
    assert HasName(v.fields[0], "secret");
    UnexportedFieldPanics(v, "secret", 0);
    UnexportedFieldSkipped(v, "secret", 0);
  }

  /** A nil input panics as written; the corrected lookup reports "not found". */
  lemma NilInputPanics(key: string)
    ensures ExtractFieldAsWritten(VNil, key).Err?
    ensures ExtractField(VNil, key) == VNil
  {
  }

  /** `deepExtractFieldWithError`: ExtractField applied along a
      separator-joined path.  It fails only when the first segment is not
      found; a missing later segment gives a nil value and no error. */
  function DeepExtractFieldWithError(v: Value, key: string): (r: Result<Value>)
    ensures r.Err? <==> ExtractField(v, Split(key, FieldPathSeparator)[0]) == VNil
    ensures r.Ok? ==> r.value == FollowPath(ExtractField(v, Split(key, FieldPathSeparator)[0]), Split(key, FieldPathSeparator)[1..])
  {
    var splits := Split(key, FieldPathSeparator);
    var first := ExtractField(v, splits[0]);
    if first == VNil then Err("unable to find field to extract: " + Quote(splits[0]))
    else Ok(FollowPath(first, splits[1..]))
  }

  /** The rest of the path walk: stop with nil as soon as a segment is missing. */
  function FollowPath(v: Value, segs: seq<string>): Value
    decreases |segs|
  {
    if |segs| == 0 then v
    else
      var next := ExtractField(v, segs[0]);
      if next == VNil then VNil else FollowPath(next, segs[1..])
  }

  /** `DeepExtractField`: the same walk with the error dropped. */
  function DeepExtractField(v: Value, key: string): (r: Value)
    ensures DeepExtractFieldWithError(v, key).Ok? ==> r == DeepExtractFieldWithError(v, key).value
    ensures DeepExtractFieldWithError(v, key).Err? ==> r == VNil
  {
    match DeepExtractFieldWithError(v, key)
    case Ok(x) => x
    case Err(_) => VNil
  }

  /** ExtractField applied segment after segment, with no early stop. */
  function Chain(v: Value, segs: seq<string>): Value
    decreases |segs|
  {
    if |segs| == 0 then v else Chain(ExtractField(v, segs[0]), segs[1..])
  }

  /** Stopping early at nil changes nothing: nil has no fields. */
  lemma {:induction false} FollowPathIsChain(v: Value, segs: seq<string>)
    ensures FollowPath(v, segs) == Chain(v, segs)
    decreases |segs|
  {
    if |segs| > 0 {
      var next := ExtractField(v, segs[0]);
      FollowPathIsChain(next, segs[1..]);
      if next == VNil {
        NilChain(segs[1..]);
      }
    }
  }

  lemma {:induction false} NilChain(segs: seq<string>)
    ensures Chain(VNil, segs) == VNil
    decreases |segs|
  {
    if |segs| > 0 {
      NilChain(segs[1..]);
    }
  }

  /** Applying ExtractField along two paths in turn is applying it along
      their concatenation. */
  lemma {:induction false} ChainAppend(v: Value, a: seq<string>, b: seq<string>)
    ensures Chain(v, a + b) == Chain(Chain(v, a), b)
    decreases |a|
  {
    if |a| == 0 {
      assert a + b == b;
    } else {
      assert (a + b)[0] == a[0] && (a + b)[1..] == a[1..] + b;
      ChainAppend(ExtractField(v, a[0]), a[1..], b);
    }
  }

  /** Once a later segment of the path is missing, the deep lookup gives nil
      and no error. */
  lemma DeepExtractMissingLater(v: Value, key: string, k: nat)
    requires ExtractField(v, Split(key, FieldPathSeparator)[0]) != VNil
    requires 1 <= k <= |Split(key, FieldPathSeparator)|
    requires Chain(v, Split(key, FieldPathSeparator)[..k]) == VNil
    ensures DeepExtractFieldWithError(v, key) == Ok(VNil)
  {
    var segs := Split(key, FieldPathSeparator);
    var first := ExtractField(v, segs[0]);
    FollowPathIsChain(first, segs[1..]);
    assert segs[1..] == segs[1..k] + segs[k..];
    ChainAppend(first, segs[1..k], segs[k..]);
    assert Chain(v, segs[..k]) == Chain(first, segs[1..k]) by {
      assert segs[..k][1..] == segs[1..k];
    }
    NilChain(segs[k..]);
  }

  /** For a key without the separator the deep lookup is ExtractField. */
  lemma DeepExtractSingleSegment(v: Value, key: string)
    requires FieldPathSeparator !in key
    ensures DeepExtractField(v, key) == ExtractField(v, key)
    ensures DeepExtractFieldWithError(v, key).Err? <==> ExtractField(v, key) == VNil
  {
    SplitNoSep(key, FieldPathSeparator);
  }

  /** A path "a_b_c" of separator-free segments is the nested lookup
      ExtractField(ExtractField(ExtractField(v, "a"), "b"), "c") whenever the
      first segment is found. */
  lemma DeepExtractPath(v: Value, segs: seq<string>)
    requires |segs| >= 1
    requires forall i :: 0 <= i < |segs| ==> FieldPathSeparator !in segs[i]
    requires ExtractField(v, segs[0]) != VNil
    ensures DeepExtractFieldWithError(v, Join(segs, FieldPathSeparator)) == Ok(Chain(v, segs))
  {
    SplitJoin(segs, FieldPathSeparator);
    FollowPathIsChain(ExtractField(v, segs[0]), segs[1..]);
  }

  /** A struct field that `extractEmbeds` reports: embedded and exported. */
  predicate IsEmbedType(f: GoField) {
    f.anonymous && Exported(f.name)
  }

  /** Field `i` is the last of `fs` that `extractEmbeds` reports under `name`. */
  predicate LastEmbed(fs: seq<GoField>, name: string, i: int) {
    && 0 <= i < |fs| && IsEmbedType(fs[i]) && fs[i].name == name
    && forall l :: i < l < |fs| ==> !(IsEmbedType(fs[l]) && fs[l].name == name)
  }

  /** The embedded types among `fs`, keyed by name (the type name of a
      non-pointer embedded field); a later field of the same name wins. */
  function EmbedMap(fs: seq<GoField>): (m: map<string, GoType>)
    ensures forall name :: name in m <==> exists i :: 0 <= i < |fs| && IsEmbedType(fs[i]) && fs[i].name == name
    decreases |fs|
  {
    if |fs| == 0 then map[]
    else
      var m := EmbedMap(fs[..|fs| - 1]);
      var f := fs[|fs| - 1];
      assert forall i :: 0 <= i < |fs| - 1 ==> fs[..|fs| - 1][i] == fs[i];
      if IsEmbedType(f) then m[f.name := f.typ] else m
  }

  /** Each name maps to the type of its last embedded field of that name. */
  lemma {:induction false} EmbedMapLastWins(fs: seq<GoField>, name: string)
    requires name in EmbedMap(fs)
    ensures exists i :: LastEmbed(fs, name, i) && EmbedMap(fs)[name] == fs[i].typ
    decreases |fs|
  {
    var front := fs[..|fs| - 1];
    var f := fs[|fs| - 1];
    var m := EmbedMap(front);
    assert EmbedMap(fs) == if IsEmbedType(f) then m[f.name := f.typ] else m;
    if IsEmbedType(f) && f.name == name {
      assert LastEmbed(fs, name, |fs| - 1);
    } else {
      assert name in m && EmbedMap(fs)[name] == m[name];
      EmbedMapLastWins(front, name);
      var i :| LastEmbed(front, name, i) && m[name] == front[i].typ;
      LastEmbedExtend(fs, name, i);
    }
  }

  /** The last embed of a name stays the last when a field of another name
      (or a non-embed) is appended. */
  lemma LastEmbedExtend(fs: seq<GoField>, name: string, i: int)
    requires |fs| > 0 && LastEmbed(fs[..|fs| - 1], name, i)
    requires !(IsEmbedType(fs[|fs| - 1]) && fs[|fs| - 1].name == name)
    ensures LastEmbed(fs, name, i) && fs[i] == fs[..|fs| - 1][i]
  {
    assert forall l :: i < l < |fs| - 1 ==> fs[..|fs| - 1][l] == fs[l];
  }

  /** `extractEmbeds`, applied to a struct's type: the exported embedded
      types keyed by name, or None for a non-struct or when there are none. */
  function ExtractEmbeds(t: GoType): (r: Option<map<string, GoType>>)
    ensures !t.TStruct? ==> r.None?
    ensures t.TStruct? ==> (r.None? <==> forall i :: 0 <= i < |t.fields| ==> !IsEmbedType(t.fields[i]))
    ensures r.Some? ==> forall name :: name in r.value <==>
              exists i :: 0 <= i < |t.fields| && IsEmbedType(t.fields[i]) && t.fields[i].name == name
    ensures r.Some? ==> forall name :: name in r.value ==>
              exists i :: LastEmbed(t.fields, name, i) && r.value[name] == t.fields[i].typ
  {
    if !t.TStruct? then None
    else
      var m := EmbedMap(t.fields);
      if |m| == 0 then
        assert m.Keys == {};
        assert forall i :: 0 <= i < |t.fields| && IsEmbedType(t.fields[i]) ==> t.fields[i].name in m;
        None
      else
        assert exists name :: name in m by {
          var name :| name in m.Keys;
        }
        assert forall name :: name in m ==> exists i :: LastEmbed(t.fields, name, i) && m[name] == t.fields[i].typ by {
          forall name | name in m
            ensures exists i :: LastEmbed(t.fields, name, i) && m[name] == t.fields[i].typ
          {
            EmbedMapLastWins(t.fields, name);
          }
        }
        Some(m)
  }
}
