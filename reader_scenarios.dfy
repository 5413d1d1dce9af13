/** Reader call sequences a test writes, with what each one yields. Every scenario starts from
    a fresh reader, so what it returns depends on its inputs alone. */
module ReaderScenarios {
  import opened Wrappers
  import opened JsonTree
  import opened ObjectMappers
  import opened Mutators
  import opened Readers

  /** read(path).mutate(f).mutate(g).asString(): the file is read once and both text mutators
      apply, in call order. */
  method TextMutationsCompose<V>(path: string, files: string -> Option<string>, mapper: Mapper<V>,
                                 f: string -> string, g: string -> string)
    returns (s: Result<string, ReaderError>)
    ensures files(path).Some? ==> s == Success(g(f(files(path).value)))
    ensures files(path).None? ==> s == Failure(ReadFailed(path))
  {
    var reader := new FileReader(path, files, mapper);
    var _ := reader.MutateText(f);
    var _ := reader.MutateText(g);
    s := reader.AsString();
  }

  /** read(path).mutate(m).asString(): the text is the file as read, whatever m did to the tree. */
  method TreeEditsStayOutOfText<V>(path: string, files: string -> Option<string>, mapper: Mapper<V>, m: Mutator<V>)
    returns (s: Result<string, ReaderError>)
    ensures files(path).Some? ==> s == Success(files(path).value)
    ensures files(path).None? ==> s == Failure(ReadFailed(path))
  {
    var reader := new FileReader(path, files, mapper);
    var _ := reader.MutateTree(m);
    s := reader.AsString();
  }

  /** read(path).mutate(f).asObject(target): a text mutation made before the tree is first
      needed reaches the object, since the tree is parsed from the mutated text. */
  method TextBeforeTreeReachesObject<V>(path: string, files: string -> Option<string>, mapper: Mapper<V>,
                                        f: string -> string, target: string)
    returns (o: Result<V, ReaderError>)
    requires files(path).Some?
    ensures mapper.readTree(f(files(path).value)).None? ==> o == Failure(ParseFailed)
    ensures mapper.readTree(f(files(path).value)).Some? ==>
              o == Convert(mapper, Success(mapper.readTree(f(files(path).value)).value), target)
  {
    var reader := new FileReader(path, files, mapper);
    var _ := reader.MutateText(f);
    o := reader.AsObject(target);
  }

  /** read(path).mutate(m1).mutate(m2).asJsonNode(): both edits land on the one cached tree. */
  method TreeMutationsAccumulate<V>(path: string, files: string -> Option<string>, mapper: Mapper<V>,
                                    m1: Mutator<V>, m2: Mutator<V>)
    returns (t: Result<Json, ReaderError>)
    requires files(path).Some? && mapper.readTree(files(path).value).Some?
    ensures var a1 := Apply(m1, mapper.readTree(files(path).value).value, mapper);
            var a2 := Apply(m2, a1.tree, mapper);
            a1.failure.None? && a2.failure.None? ==> t == Success(a2.tree)
  {
    var reader := new FileReader(path, files, mapper);
    var _ := reader.MutateTree(m1);
    var _ := reader.MutateTree(m2);
    t := reader.AsJsonNode();
  }

  /** A text mutation after the tree was built changes the text but not the tree: the tree
      stays the one parsed from the file. */
  method TextAfterTreeIsIgnored<V>(path: string, files: string -> Option<string>, mapper: Mapper<V>, f: string -> string)
    returns (s: Result<string, ReaderError>, t: Result<Json, ReaderError>)
    requires files(path).Some? && mapper.readTree(files(path).value).Some?
    ensures s == Success(f(files(path).value))
    ensures t == Success(mapper.readTree(files(path).value).value)
  {
    var reader := new FileReader(path, files, mapper);
    var _ := reader.AsJsonNode();
    var _ := reader.MutateText(f);
    s := reader.AsString();
    t := reader.AsJsonNode();
  }

  /** Replacing the mapper after the tree was built keeps the cached tree. */
  method NewMapperKeepsTree<V>(path: string, files: string -> Option<string>, mapper: Mapper<V>, other: Mapper<V>)
    returns (t: Result<Json, ReaderError>)
    requires files(path).Some? && mapper.readTree(files(path).value).Some?
    ensures t == Success(mapper.readTree(files(path).value).value)
  {
    var reader := new FileReader(path, files, mapper);
    var _ := reader.AsJsonNode();
    var same := reader.WithObjectMapper(other);
    t := same.AsJsonNode();
  }

  /** from(value).mutate(setNull(p)).mutate(setValue(q, x)): the tree is built from the value
      without any text, both edits land on it and asObject sees them, while asString still
      serializes the original value. */
  method ObjectEditsSkipText<V>(value: V, mapper: Mapper<V>, p: string, q: string, x: V, target: string)
    returns (o: Result<V, ReaderError>, s: Result<string, ReaderError>)
    ensures var a1 := Apply(SetNull(p), mapper.valueToTree(value), mapper);
            var a2 := Apply(SetValue(q, x), a1.tree, mapper);
            a1.failure.None? && a2.failure.None? ==> o == Convert(mapper, Success(a2.tree), target)
    ensures mapper.writeValueAsString(value).Some? ==> s == Success(mapper.writeValueAsString(value).value)
    ensures mapper.writeValueAsString(value).None? ==> s == Failure(SerializeFailed)
  {
    var reader := new ObjectReader(value, mapper);
    var _ := reader.MutateTree(SetNull(p));
    var _ := reader.MutateTree(SetValue(q, x));
    o := reader.AsObject(target);
    s := reader.AsString();
  }

  /** from(value).mutate(f).asJsonNode(): once text is cached, the tree is parsed from it
      instead of being built from the value. */
  method ObjectTextBeforeTree<V>(value: V, mapper: Mapper<V>, f: string -> string)
    returns (t: Result<Json, ReaderError>)
    requires mapper.writeValueAsString(value).Some?
    ensures var text := f(mapper.writeValueAsString(value).value);
            t == (if mapper.readTree(text).Some? then Success(mapper.readTree(text).value) else Failure(ParseFailed))
  {
    var reader := new ObjectReader(value, mapper);
    var _ := reader.MutateText(f);
    t := reader.AsJsonNode();
  }

  /** read(path).mutate(f, g) is read(path).mutate(f).mutate(g), in that order. */
  method TextBatchIsInOrder<V>(path: string, files: string -> Option<string>, mapper: Mapper<V>,
                               f: string -> string, g: string -> string)
    returns (s: Result<string, ReaderError>)
    ensures files(path).Some? ==> s == Success(g(f(files(path).value)))
  {
    var reader := new FileReader(path, files, mapper);
    var _ := reader.MutateTexts([f, g]);
    s := reader.AsString();
    if files(path).Some? {
      var text := files(path).value;
      assert [f, g][..1] == [f] && [f][..0] == [];
      assert ApplyTexts([f], text) == f(text);
    }
  }
}
