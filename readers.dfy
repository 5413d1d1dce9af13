/** The lazy readers: a FileReader reads its text from a file, an ObjectReader serializes an
    object. Both cache the text in `content` and the tree in `root`, each loaded on first
    demand and never regenerated from the other. Text mutators replace `content`; tree
    mutators edit the cached tree, which is written back to `root`. Each Java exception is
    returned as a ReaderError. */
module Readers {
  import opened Wrappers
  import opened JsonTree
  import opened Paths
  import opened ObjectMappers
  import opened Mutators

  /** The RuntimeExceptions a reader lets escape. */
  datatype ReaderError =
      /** FileReader.asString: "Could not read <path>", the file could not be read. */
    | ReadFailed(path: string)
      /** ObjectReader.asString: writeValueAsString threw. */
    | SerializeFailed
      /** asJsonNode: readTree threw JsonProcessingException on the cached text. */
    | ParseFailed
      /** asObject: convertValue threw. */
    | ConvertFailed
      /** A tree mutator threw. */
    | MutatorFailed(error: PathError)

  /** Text mutators applied in order: the last one applies to what the others made. */
  function ApplyTexts(fs: seq<string -> string>, text: string): string
    decreases |fs|
  {
    if fs == [] then text else fs[|fs| - 1](ApplyTexts(fs[..|fs| - 1], text))
  }

  /** Text mutators compose: running two batches is running their concatenation. */
  lemma {:induction false} ApplyTextsAppend(fs: seq<string -> string>, gs: seq<string -> string>, text: string)
    ensures ApplyTexts(fs + gs, text) == ApplyTexts(gs, ApplyTexts(fs, text))
    decreases |gs|
  {
    if gs == [] {
      assert fs + gs == fs;
    } else {
      var init := gs[..|gs| - 1];
      assert (fs + gs)[..|fs + gs| - 1] == fs + init;
      ApplyTextsAppend(fs, init, text);
    }
  }

  /** A batch of tree mutators whose last member runs only when none before it threw. */
  lemma ApplyAllSnoc<V>(ms: seq<Mutator<V>>, i: nat, node: Json, mapper: Mapper<V>)
    requires i < |ms|
    ensures ApplyAll(ms[..i + 1], node, mapper) ==
              var a := ApplyAll(ms[..i], node, mapper);
              if a.failure.Some? then a else Apply(ms[i], a.tree, mapper)
  {
    assert ms[..i + 1] == ms[..i] + [ms[i]];
    ApplyAllAppend(ms[..i], [ms[i]], node, mapper);
    assert [ms[i]][1..] == [];
  }

  /** asObject: convertValue on the tree, once the tree could be had. */
  function Convert<V>(mapper: Mapper<V>, tree: Result<Json, ReaderError>, target: string): (r: Result<V, ReaderError>)
    ensures tree.Failure? ==> r == Failure(tree.error)
    ensures tree.Success? ==> (r.Success? <==> mapper.convertValue(tree.value, target).Some?)
    ensures r.Success? ==> r.value == mapper.convertValue(tree.value, target).value
    ensures tree.Success? && mapper.convertValue(tree.value, target).None? ==> r == Failure(ConvertFailed)
  {
    match tree
    case Failure(e) => Failure(e)
    case Success(t) =>
      match mapper.convertValue(t, target)
      case None => Failure(ConvertFailed)
      case Some(v) => Success(v)
  }

  /** The reader of a file. `files` is the file system as Files.readString sees it. */
  class FileReader<V> {
    const path: string
    const files: string -> Option<string>
    var content: Option<string>
    var root: Option<Json>
    var mapper: Mapper<V>

    /** The text asString would return now. */
    ghost function Text(): Result<string, ReaderError>
      reads this
    {
      match content
      case Some(text) => Success(text)
      case None =>
        match files(path)
        case Some(text) => Success(text)
        case None => Failure(ReadFailed(path))
    }

    /** The tree asJsonNode would return now. */
    ghost function Tree(): Result<Json, ReaderError>
      reads this
    {
      match root
      case Some(tree) => Success(tree)
      case None =>
        match Text()
        case Failure(e) => Failure(e)
        case Success(text) =>
          match mapper.readTree(text)
          case Some(tree) => Success(tree)
          case None => Failure(ParseFailed)
    }

    /** The text cache once asJsonNode has run. */
    ghost function ContentAfterTree(): Option<string>
      reads this
    {
      if root.None? && Text().Success? then Some(Text().value) else content
    }

    /** The mapper is the package-level default, given here. Nothing is read yet. */
    constructor(path: string, files: string -> Option<string>, mapper: Mapper<V>)
      ensures this.path == path && this.files == files && this.mapper == mapper
      ensures content == None && root == None
    {
      this.path := path;
      this.files := files;
      this.mapper := mapper;
      content := None;
      root := None;
    }

    method WithObjectMapper(m: Mapper<V>) returns (r: FileReader<V>)
      modifies this
      ensures r == this && mapper == m
      ensures content == old(content) && root == old(root)
    {
      mapper := m;
      r := this;
    }

    /** Reads the file only while no text is cached; the first text read is kept. */
    method AsString() returns (r: Result<string, ReaderError>)
      modifies this
      ensures r == old(Text())
      ensures content == (if r.Success? then Some(r.value) else old(content))
      ensures root == old(root) && mapper == old(mapper)
    {
      if content.None? {
        match files(path) {
          case None =>
            return Failure(ReadFailed(path));
          case Some(text) =>
            content := Some(text);
        }
      }
      return Success(content.value);
    }

    /** Parses the text only while no tree is cached; the first tree is kept. */
    method AsJsonNode() returns (r: Result<Json, ReaderError>)
      modifies this
      ensures r == old(Tree())
      ensures root == (if r.Success? then Some(r.value) else old(root))
      ensures content == old(ContentAfterTree())
      ensures mapper == old(mapper)
    {
      if root.None? {
        var text := AsString();
        if text.Failure? {
          return Failure(text.error);
        }
        match mapper.readTree(text.value) {
          case None =>
            return Failure(ParseFailed);
          case Some(tree) =>
            root := Some(tree);
        }
      }
      return Success(root.value);
    }

    /** Always converts from the tree, never from the text. */
    method AsObject(target: string) returns (r: Result<V, ReaderError>)
      modifies this
      ensures r == Convert(old(mapper), old(Tree()), target)
      ensures root == (if old(Tree()).Success? then Some(old(Tree()).value) else old(root))
      ensures content == old(ContentAfterTree())
      ensures mapper == old(mapper)
    {
      var tree := AsJsonNode();
      r := Convert(mapper, tree, target);
    }

    /** content := f(asString()); the cached tree is left as it is. */
    method MutateText(f: string -> string) returns (r: Result<FileReader<V>, ReaderError>)
      modifies this
      ensures old(Text()).Success? ==> r == Success(this) && content == Some(f(old(Text()).value))
      ensures old(Text()).Failure? ==> r == Failure(old(Text()).error) && content == old(content)
      ensures root == old(root) && mapper == old(mapper)
    {
      var text := AsString();
      if text.Failure? {
        return Failure(text.error);
      }
      content := Some(f(text.value));
      return Success(this);
    }

    /** mutator.accept(asJsonNode(), objectMapper): the cached tree is edited, and keeps the
        edits made before a mutator throws. */
    method MutateTree(m: Mutator<V>) returns (r: Result<FileReader<V>, ReaderError>)
      modifies this
      ensures old(Tree()).Failure? ==> r == Failure(old(Tree()).error) && root == old(root)
      ensures old(Tree()).Success? ==>
                var a := Apply(m, old(Tree()).value, old(mapper));
                && root == Some(a.tree)
                && r == (if a.failure.None? then Success(this) else Failure(MutatorFailed(a.failure.value)))
      ensures content == old(ContentAfterTree()) && mapper == old(mapper)
    {
      var tree := AsJsonNode();
      if tree.Failure? {
        return Failure(tree.error);
      }
      var a := Apply(m, tree.value, mapper);
      root := Some(a.tree);
      if a.failure.Some? {
        return Failure(MutatorFailed(a.failure.value));
      }
      return Success(this);
    }

    /** Reader.mutate(Function...): each text mutator once, in order; none reads the file. */
    method MutateTexts(fs: seq<string -> string>) returns (r: Result<FileReader<V>, ReaderError>)
      modifies this
      ensures fs == [] ==> r == Success(this) && content == old(content)
      ensures fs != [] && old(Text()).Success? ==>
                r == Success(this) && content == Some(ApplyTexts(fs, old(Text()).value))
      ensures fs != [] && old(Text()).Failure? ==> r == Failure(old(Text()).error) && content == old(content)
      ensures root == old(root) && mapper == old(mapper)
    {
      for i := 0 to |fs|
        invariant root == old(root) && mapper == old(mapper)
        invariant i == 0 ==> content == old(content)
        invariant i > 0 ==> old(Text()).Success? && content == Some(ApplyTexts(fs[..i], old(Text()).value))
      {
        var step := MutateText(fs[i]);
        if step.Failure? {
          return step;
        }
        assert fs[..i + 1][..i] == fs[..i];
      }
      assert fs[..|fs|] == fs;
      return Success(this);
    }

    /** Reader.mutate(BiConsumer...): each tree mutator once, in order, on the one cached tree;
        a mutator that throws ends the loop. */
    method MutateTrees(ms: seq<Mutator<V>>) returns (r: Result<FileReader<V>, ReaderError>)
      modifies this
      ensures ms == [] ==> r == Success(this) && root == old(root) && content == old(content)
      ensures ms != [] && old(Tree()).Failure? ==> r == Failure(old(Tree()).error) && root == old(root)
      ensures ms != [] && old(Tree()).Success? ==>
                var a := ApplyAll(ms, old(Tree()).value, old(mapper));
                && root == Some(a.tree)
                && r == (if a.failure.None? then Success(this) else Failure(MutatorFailed(a.failure.value)))
      ensures ms != [] ==> content == old(ContentAfterTree())
      ensures mapper == old(mapper)
    {
      for i := 0 to |ms|
        invariant mapper == old(mapper)
        invariant i == 0 ==> root == old(root) && content == old(content)
        invariant i > 0 ==>
                    && old(Tree()).Success?
                    && content == old(ContentAfterTree())
                    && ApplyAll(ms[..i], old(Tree()).value, mapper).failure.None?
                    && root == Some(ApplyAll(ms[..i], old(Tree()).value, mapper).tree)
      {
        if old(Tree()).Success? {
          ApplyAllSnoc(ms, i, old(Tree()).value, mapper);
        }
        var step := MutateTree(ms[i]);
        if step.Failure? {
          if old(Tree()).Success? {
            GroupStopsAtFailure(ms, i, old(Tree()).value, mapper);
          }
          return step;
        }
      }
      assert ms[..|ms|] == ms;
      return Success(this);
    }
  }

  /** The reader of an object, serialized or turned into a tree on demand. */
  class ObjectReader<V> {
    const value: V
    var content: Option<string>
    var root: Option<Json>
    var mapper: Mapper<V>

    /** The text asString would return now. */
    ghost function Text(): Result<string, ReaderError>
      reads this
    {
      match content
      case Some(text) => Success(text)
      case None =>
        match mapper.writeValueAsString(value)
        case Some(text) => Success(text)
        case None => Failure(SerializeFailed)
    }

    /** The tree asJsonNode would return now: without cached text it is built from the value. */
    ghost function Tree(): Result<Json, ReaderError>
      reads this
    {
      match root
      case Some(tree) => Success(tree)
      case None =>
        match content
        case None => Success(mapper.valueToTree(value))
        case Some(text) =>
          match mapper.readTree(text)
          case Some(tree) => Success(tree)
          case None => Failure(ParseFailed)
    }

    constructor(value: V, mapper: Mapper<V>)
      ensures this.value == value && this.mapper == mapper
      ensures content == None && root == None
    {
      this.value := value;
      this.mapper := mapper;
      content := None;
      root := None;
    }

    method WithObjectMapper(m: Mapper<V>) returns (r: ObjectReader<V>)
      modifies this
      ensures r == this && mapper == m
      ensures content == old(content) && root == old(root)
    {
      mapper := m;
      r := this;
    }

    /** Serializes the object only while no text is cached; the first text is kept. */
    method AsString() returns (r: Result<string, ReaderError>)
      modifies this
      ensures r == old(Text())
      ensures content == (if r.Success? then Some(r.value) else old(content))
      ensures root == old(root) && mapper == old(mapper)
    {
      if content.None? {
        match mapper.writeValueAsString(value) {
          case None =>
            return Failure(SerializeFailed);
          case Some(text) =>
            content := Some(text);
        }
      }
      return Success(content.value);
    }

    /** Builds the tree only while none is cached: from the value when no text is cached
        (leaving the text uncached), otherwise by parsing the cached text. */
    method AsJsonNode() returns (r: Result<Json, ReaderError>)
      modifies this
      ensures r == old(Tree())
      ensures root == (if r.Success? then Some(r.value) else old(root))
      ensures content == old(content) && mapper == old(mapper)
    {
      if root.None? {
        if content.None? {
          root := Some(mapper.valueToTree(value));
        } else {
          var text := AsString();
          match mapper.readTree(text.value) {
            case None =>
              return Failure(ParseFailed);
            case Some(tree) =>
              root := Some(tree);
          }
        }
      }
      return Success(root.value);
    }

    /** Always converts from the tree, never from the text. */
    method AsObject(target: string) returns (r: Result<V, ReaderError>)
      modifies this
      ensures r == Convert(old(mapper), old(Tree()), target)
      ensures root == (if old(Tree()).Success? then Some(old(Tree()).value) else old(root))
      ensures content == old(content) && mapper == old(mapper)
    {
      var tree := AsJsonNode();
      r := Convert(mapper, tree, target);
    }

    /** content := f(asString()); the cached tree is left as it is. */
    method MutateText(f: string -> string) returns (r: Result<ObjectReader<V>, ReaderError>)
      modifies this
      ensures old(Text()).Success? ==> r == Success(this) && content == Some(f(old(Text()).value))
      ensures old(Text()).Failure? ==> r == Failure(old(Text()).error) && content == old(content)
      ensures root == old(root) && mapper == old(mapper)
    {
      var text := AsString();
      if text.Failure? {
        return Failure(text.error);
      }
      content := Some(f(text.value));
      return Success(this);
    }

    /** mutator.accept(asJsonNode(), objectMapper): the cached tree is edited, and keeps the
        edits made before a mutator throws. */
    method MutateTree(m: Mutator<V>) returns (r: Result<ObjectReader<V>, ReaderError>)
      modifies this
      ensures old(Tree()).Failure? ==> r == Failure(old(Tree()).error) && root == old(root)
      ensures old(Tree()).Success? ==>
                var a := Apply(m, old(Tree()).value, old(mapper));
                && root == Some(a.tree)
                && r == (if a.failure.None? then Success(this) else Failure(MutatorFailed(a.failure.value)))
      ensures content == old(content) && mapper == old(mapper)
    {
      var tree := AsJsonNode();
      if tree.Failure? {
        return Failure(tree.error);
      }
      var a := Apply(m, tree.value, mapper);
      root := Some(a.tree);
      if a.failure.Some? {
        return Failure(MutatorFailed(a.failure.value));
      }
      return Success(this);
    }

    /** Reader.mutate(Function...): each text mutator once, in order. */
    method MutateTexts(fs: seq<string -> string>) returns (r: Result<ObjectReader<V>, ReaderError>)
      modifies this
      ensures fs == [] ==> r == Success(this) && content == old(content)
      ensures fs != [] && old(Text()).Success? ==>
                r == Success(this) && content == Some(ApplyTexts(fs, old(Text()).value))
      ensures fs != [] && old(Text()).Failure? ==> r == Failure(old(Text()).error) && content == old(content)
      ensures root == old(root) && mapper == old(mapper)
    {
      for i := 0 to |fs|
        invariant root == old(root) && mapper == old(mapper)
        invariant i == 0 ==> content == old(content)
        invariant i > 0 ==> old(Text()).Success? && content == Some(ApplyTexts(fs[..i], old(Text()).value))
      {
        var step := MutateText(fs[i]);
        if step.Failure? {
          return step;
        }
        assert fs[..i + 1][..i] == fs[..i];
      }
      assert fs[..|fs|] == fs;
      return Success(this);
    }

    /** Reader.mutate(BiConsumer...): each tree mutator once, in order, on the one cached tree;
        a mutator that throws ends the loop. */
    method MutateTrees(ms: seq<Mutator<V>>) returns (r: Result<ObjectReader<V>, ReaderError>)
      modifies this
      ensures ms == [] ==> r == Success(this) && root == old(root)
      ensures ms != [] && old(Tree()).Failure? ==> r == Failure(old(Tree()).error) && root == old(root)
      ensures ms != [] && old(Tree()).Success? ==>
                var a := ApplyAll(ms, old(Tree()).value, old(mapper));
                && root == Some(a.tree)
                && r == (if a.failure.None? then Success(this) else Failure(MutatorFailed(a.failure.value)))
      ensures content == old(content) && mapper == old(mapper)
    {
      for i := 0 to |ms|
        invariant content == old(content) && mapper == old(mapper)
        invariant i == 0 ==> root == old(root)
        invariant i > 0 ==>
                    && old(Tree()).Success?
                    && ApplyAll(ms[..i], old(Tree()).value, mapper).failure.None?
                    && root == Some(ApplyAll(ms[..i], old(Tree()).value, mapper).tree)
      {
        if old(Tree()).Success? {
          ApplyAllSnoc(ms, i, old(Tree()).value, mapper);
        }
        var step := MutateTree(ms[i]);
        if step.Failure? {
          if old(Tree()).Success? {
            GroupStopsAtFailure(ms, i, old(Tree()).value, mapper);
          }
          return step;
        }
      }
      assert ms[..|ms|] == ms;
      return Success(this);
    }
  }
}
