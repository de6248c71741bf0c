/** The helpers of lib/util.js: the deep merge of option objects, the escaping
    of text for a regular expression, and the merge of one directory into
    another. */
module Util {
  import opened Wrappers
  import opened Errors
  import opened JsValues
  import opened NodePath
  import opened FileTree

  // ----- mergeDeep -----

  /** The properties written into `d`; writes to a primitive are ignored. */
  function Assign(d: JsValue, updates: map<string, JsValue>): JsValue {
    if d.Obj? then Obj(d.props + updates) else d
  }

  /** What `mergeDeep(dest, src)` returns, or the TypeError it throws. A
      missing destination starts as `{}`; every own key of `src` is written,
      and a plain-object value is first merged into what the destination
      holds under that key. */
  ghost function Merged(dest: JsValue, src: JsValue): Result<JsValue, Failure>
    decreases src, 4
  {
    if IsNullish(src) then Failure(TypeError)
    else
      var d := Start(dest);
      if OwnKeys(src) == {} then Success(d)
      else if d.Null? then Failure(TypeError)
      else if !MergedWithoutError(d, src, OwnKeys(src)) then Failure(TypeError)
      else Success(PartlyMerged(d, src, OwnKeys(src)))
  }

  /** The object `mergeDeep` starts from. */
  function Start(dest: JsValue): JsValue {
    if dest.Undefined? then Obj(map[]) else dest
  }

  /** The value `mergeDeep` writes under the key `k`. */
  ghost function MergedValue(d: JsValue, src: JsValue, k: string): Result<JsValue, Failure>
    requires k in OwnKeys(src) && !IsNullish(d)
    decreases src, 0
  {
    var v := OwnProp(src, k);
    if IsObject(v) then OwnPropSmaller(src, k); Merged(Prop(d, k).value, v) else Success(v)
  }

  /** The keys in `done` have been merged without error. */
  ghost predicate MergedWithoutError(d: JsValue, src: JsValue, done: set<string>)
    requires !IsNullish(d)
    decreases src, 1
  {
    forall k :: k in done ==> k in OwnKeys(src) && MergedValue(d, src, k).Success?
  }

  /** The values written under the keys in `done`. */
  ghost function Writes(d: JsValue, src: JsValue, done: set<string>): map<string, JsValue>
    requires !IsNullish(d) && MergedWithoutError(d, src, done)
    decreases src, 2
  {
    map k | k in done :: MergedValue(d, src, k).value
  }

  /** `d` once the keys in `done` have been written. */
  ghost function PartlyMerged(d: JsValue, src: JsValue, done: set<string>): JsValue
    requires !IsNullish(d) && MergedWithoutError(d, src, done)
    decreases src, 3
  {
    Assign(d, Writes(d, src, done))
  }

  lemma PartlyMergedNone(d: JsValue, src: JsValue)
    requires !IsNullish(d)
    ensures PartlyMerged(d, src, {}) == d
  {
    if d.Obj? {
      assert d.props + map[] == d.props;
    }
  }

  lemma PartlyMergedUnwritten(d: JsValue, src: JsValue, done: set<string>, key: string)
    requires !IsNullish(d) && MergedWithoutError(d, src, done) && key !in done
    ensures Prop(PartlyMerged(d, src, done), key) == Prop(d, key)
  {
  }

  lemma PartlyMergedStep(d: JsValue, src: JsValue, done: set<string>, key: string)
    requires !IsNullish(d) && MergedWithoutError(d, src, done) && key !in done
    requires key in OwnKeys(src) && MergedValue(d, src, key).Success?
    ensures MergedWithoutError(d, src, done + {key})
    ensures SetProp(PartlyMerged(d, src, done), key, MergedValue(d, src, key).value)
         == Success(PartlyMerged(d, src, done + {key}))
  {
    assert MergedWithoutError(d, src, done + {key});
    if d.Obj? {
      PartlyMergedObjStep(d, src, done, key);
    }
  }

  lemma PartlyMergedObjStep(d: JsValue, src: JsValue, done: set<string>, key: string)
    requires d.Obj? && MergedWithoutError(d, src, done + {key})
    ensures MergedWithoutError(d, src, done)
    ensures PartlyMerged(d, src, done + {key})
         == Obj(PartlyMerged(d, src, done).props[key := MergedValue(d, src, key).value])
  {
    var m := Writes(d, src, done);
    var m' := Writes(d, src, done + {key});
    assert m'.Keys == m.Keys + {key};
    assert forall k :: k in m ==> m'[k] == m[k];
    OverrideStep(d.props, m, m', key, MergedValue(d, src, key).value);
  }

  /** Writing one more key after a batch of writes is the batch with that
      key added. */
  lemma OverrideStep(props: map<string, JsValue>, m: map<string, JsValue>, m': map<string, JsValue>,
                     key: string, v: JsValue)
    requires m'.Keys == m.Keys + {key} && m'[key] == v
    requires forall k :: k in m ==> m'[k] == m[k]
    ensures (props + m)[key := v] == props + m'
  {
  }

  lemma MergedAllKeys(dest: JsValue, src: JsValue)
    requires !IsNullish(src)
    requires var d := Start(dest);
      !d.Null? && MergedWithoutError(d, src, OwnKeys(src))
    ensures var d := Start(dest);
      Merged(dest, src) == Success(PartlyMerged(d, src, OwnKeys(src)))
  {
    var d := Start(dest);
    if OwnKeys(src) == {} {
      PartlyMergedNone(d, src);
    }
  }

  lemma MergedNoKeysOrNull(dest: JsValue, src: JsValue)
    requires !IsNullish(src)
    ensures dest.Null? && OwnKeys(src) == {} ==> Merged(dest, src) == Success(Null)
    ensures dest.Null? && OwnKeys(src) != {} ==> Merged(dest, src) == Failure(TypeError)
  {
  }

  lemma MergedKeyFails(dest: JsValue, src: JsValue, key: string)
    requires !IsNullish(src)
    requires var d := Start(dest);
      !d.Null? && key in OwnKeys(src) && MergedValue(d, src, key).Failure?
    ensures Merged(dest, src) == Failure(TypeError)
  {
  }

  /** `mergeDeep`: copies the keys of `source` into `destination` one by one. */
  method MergeDeep(destination: JsValue, source: JsValue) returns (r: Result<JsValue, Failure>)
    ensures r == Merged(destination, source)
    decreases source, 2
  {
    if IsNullish(source) {
      return Failure(TypeError);
    }
    MergedNoKeysOrNull(destination, source);
    var d0 := Start(destination);
    if d0.Null? {
      if OwnKeys(source) == {} {
        return Success(Null);
      }
      return Failure(TypeError);
    }
    r := MergeKeys(d0, source);
    if r.Failure? {
      ghost var key :| key in OwnKeys(source) && MergedValue(d0, source, key).Failure?;
      MergedKeyFails(destination, source, key);
    } else {
      MergedAllKeys(destination, source);
    }
  }

  /** The loop of `mergeDeep` over `Object.keys(source)`. */
  method MergeKeys(d0: JsValue, source: JsValue) returns (r: Result<JsValue, Failure>)
    requires !IsNullish(d0)
    ensures r.Success? ==> MergedWithoutError(d0, source, OwnKeys(source))
    ensures r.Success? ==> r.value == PartlyMerged(d0, source, OwnKeys(source))
    ensures r.Failure? ==> r.error == TypeError
    ensures r.Failure? ==> exists k :: k in OwnKeys(source) && MergedValue(d0, source, k).Failure?
    decreases source, 1
  {
    var d := d0;
    var keys := OwnKeys(source);
    ghost var done: set<string> := {};
    PartlyMergedNone(d0, source);
    while keys != {}
      invariant keys !! done && keys + done == OwnKeys(source)
      invariant MergedWithoutError(d0, source, done)
      invariant d == PartlyMerged(d0, source, done)
      decreases |keys|
    {
      var key :| key in keys;
      var next := MergeKey(d0, source, done, d, key);
      if next.Failure? {
        return Failure(TypeError);
      }
      d := next.value;
      keys := keys - {key};
      done := done + {key};
    }
    return Success(d);
  }

  /** One turn of the loop in `mergeDeep`: `destination[key] = value`, with
      a plain-object value merged first. */
  method MergeKey(d0: JsValue, source: JsValue, ghost done: set<string>, d: JsValue, key: string)
    returns (r: Result<JsValue, Failure>)
    requires !IsNullish(d0) && key in OwnKeys(source) && key !in done
    requires MergedWithoutError(d0, source, done) && d == PartlyMerged(d0, source, done)
    ensures r.Failure? <==> MergedValue(d0, source, key).Failure?
    ensures r.Success? ==> MergedWithoutError(d0, source, done + {key})
    ensures r.Success? ==> r.value == PartlyMerged(d0, source, done + {key})
    decreases source, 0
  {
    var value := OwnProp(source, key);
    if IsObject(value) {
      PartlyMergedUnwritten(d0, source, done, key);
      var current := Prop(d, key).value;
      OwnPropSmaller(source, key);
      var merged := MergeDeep(current, value);
      if merged.Failure? {
        return Failure(TypeError);
      }
      value := merged.value;
    }
    PartlyMergedStep(d0, source, done, key);
    return SetProp(d, key, value);
  }

  // ----- what mergeDeep promises -----

  /** A merge into an object that succeeds wrote every key of the source. */
  lemma MergedSuccess(dest: JsValue, src: JsValue)
    requires Merged(dest, src).Success? && Start(dest).Obj?
    ensures !IsNullish(src) && MergedWithoutError(Start(dest), src, OwnKeys(src))
    ensures Merged(dest, src).value == PartlyMerged(Start(dest), src, OwnKeys(src))
  {
    if OwnKeys(src) == {} {
      PartlyMergedNone(Start(dest), src);
    }
  }

  /** Into an object (or a missing destination) every own key of the source
      is written, and keys only the destination has keep their value. */
  lemma MergedKeys(dest: JsValue, src: JsValue, k: string)
    requires dest.Undefined? || dest.Obj?
    requires Merged(dest, src).Success?
    ensures Merged(dest, src).value.Obj?
    ensures Merged(dest, src).value.props.Keys
         == OwnKeys(src) + (if dest.Obj? then dest.props.Keys else {})
    ensures dest.Obj? && k in dest.props && k !in OwnKeys(src)
         ==> Merged(dest, src).value.props[k] == dest.props[k]
  {
    MergedSuccess(dest, src);
  }

  /** Under a key of the source, a value that is not a plain object replaces
      what the destination had, and a plain object is merged into it. */
  lemma MergedSourceKey(dest: JsValue, src: JsValue, k: string)
    requires dest.Undefined? || dest.Obj?
    requires Merged(dest, src).Success? && k in OwnKeys(src)
    ensures Merged(dest, src).value.Obj? && k in Merged(dest, src).value.props
    ensures !IsObject(OwnProp(src, k)) ==> Merged(dest, src).value.props[k] == OwnProp(src, k)
    ensures IsObject(OwnProp(src, k))
         ==> Success(Merged(dest, src).value.props[k])
             == Merged(if dest.Obj? && k in dest.props then dest.props[k] else Undefined, OwnProp(src, k))
  {
    MergedSuccess(dest, src);
    assert Writes(Start(dest), src, OwnKeys(src))[k] == MergedValue(Start(dest), src, k).value;
  }

  /** Merging a plain object into `{}` (or into nothing) gives an equal
      object: this is how the engine copies configurations. */
  lemma {:induction false} MergeIntoEmptyCopies(x: JsValue)
    requires x.Obj?
    ensures Merged(Obj(map[]), x) == Success(x)
    ensures Merged(Undefined, x) == Success(x)
    decreases x
  {
    forall k | k in x.props
      ensures MergedValue(Obj(map[]), x, k) == Success(x.props[k])
    {
      var v := x.props[k];
      if IsObject(v) {
        MergeIntoEmptyCopies(v);
      }
    }
    var m := Writes(Obj(map[]), x, OwnKeys(x));
    assert m == x.props;
    assert map[] + m == x.props;
  }

  /** No null anywhere inside the value. */
  ghost predicate NullFree(v: JsValue) {
    match v
    case Null => false
    case Obj(p) => forall k :: k in p ==> NullFree(p[k])
    case Arr(items) => forall i :: 0 <= i < |items| ==> NullFree(items[i])
    case _ => true
  }

  lemma PropOfNullFree(d: JsValue, k: string)
    requires NullFree(d) && !d.Undefined?
    ensures Prop(d, k).Success? && NullFree(Prop(d, k).value)
  {
  }

  /** `mergeDeep` throws only when the source is null or undefined, or when a
      plain object is merged into a null somewhere in the destination. */
  lemma {:induction false} MergeSucceedsWithoutNull(dest: JsValue, src: JsValue)
    requires !IsNullish(src) && NullFree(dest)
    ensures Merged(dest, src).Success?
    decreases src
  {
    var d := Start(dest);
    forall k | k in OwnKeys(src)
      ensures MergedValue(d, src, k).Success?
    {
      var v := OwnProp(src, k);
      if IsObject(v) {
        PropOfNullFree(d, k);
        OwnPropSmaller(src, k);
        MergeSucceedsWithoutNull(Prop(d, k).value, v);
      }
    }
  }

  // ----- escapeRegExp -----

  /** The characters that have a meaning in a regular expression. */
  predicate RegExpSpecial(c: char) {
    c in {'.', '*', '+', '?', '^', '$', '{', '}', '(', ')', '|', '[', ']', '\\'}
  }

  /** `escapeRegExp`: a backslash in front of every special character. */
  function EscapeRegExp(s: string): string {
    if s == [] then []
    else (if RegExpSpecial(s[0]) then ['\\', s[0]] else [s[0]]) + EscapeRegExp(s[1..])
  }

  /** How a regular expression reads a run of literal characters: a
      backslash stands for the character after it. */
  function Unescape(r: string): string {
    if r == [] then []
    else if r[0] == '\\' && |r| >= 2 then [r[1]] + Unescape(r[2..])
    else [r[0]] + Unescape(r[1..])
  }

  /** The pattern holds no operator: it is made of plain characters and
      escaped pairs only. */
  predicate Literal(r: string) {
    if r == [] then true
    else if r[0] == '\\' then |r| >= 2 && Literal(r[2..])
    else !RegExpSpecial(r[0]) && Literal(r[1..])
  }

  function CountSpecial(s: string): nat {
    if s == [] then 0 else (if RegExpSpecial(s[0]) then 1 else 0) + CountSpecial(s[1..])
  }

  /** The escaped text is a literal pattern that stands for the text itself,
      one backslash longer per special character. */
  lemma {:induction false} EscapeRegExpIsLiteral(s: string)
    ensures Literal(EscapeRegExp(s))
    ensures Unescape(EscapeRegExp(s)) == s
    ensures |EscapeRegExp(s)| == |s| + CountSpecial(s)
  {
    if s != [] {
      EscapeRegExpIsLiteral(s[1..]);
      var r := EscapeRegExp(s);
      if RegExpSpecial(s[0]) {
        assert r[2..] == EscapeRegExp(s[1..]);
      } else {
        assert r[1..] == EscapeRegExp(s[1..]);
      }
    }
  }

  lemma {:induction false} EscapeRegExpConcat(a: string, b: string)
    ensures EscapeRegExp(a + b) == EscapeRegExp(a) + EscapeRegExp(b)
  {
    if a != [] {
      assert (a + b)[1..] == a[1..] + b;
      EscapeRegExpConcat(a[1..], b);
    } else {
      assert a + b == b;
    }
  }

  // ----- mergeDirectories -----

  /** The tree `mergeDirectories({sourceDir: src, destinationDir: dst})`
      leaves: nothing happens for a missing or empty source; otherwise the
      destination is created and the source's entries are copied into it. */
  function MergedDirectories(n: Node, src: Path, dst: Path): Node {
    if LsCount(n, src) == 0 then n else CopyChildren(Mkdirp(n, dst), src, dst)
  }

  method MergeDirectories(fs: FileSystem, sourceDir: Path, destinationDir: Path)
    modifies fs
    ensures fs.root == MergedDirectories(old(fs.root), sourceDir, destinationDir)
  {
    if LsCount(fs.root, sourceDir) == 0 {
      return;
    }
    fs.MakeDirs(destinationDir);
    fs.CopyEntries(sourceDir, destinationDir);
  }

  /** A missing source, or an empty directory, leaves everything as it was:
      the destination is not even created. */
  lemma MergeDirectoriesNothingToCopy(n: Node, src: Path, dst: Path)
    requires Get(n, src).None? || Get(n, src) == Some(Dir(map[]))
    ensures MergedDirectories(n, src, dst) == n
  {
  }

  /** A non-empty source directory apart from the destination, with no file
      in the destination's way: the destination ends up a directory holding
      its old entries and every visible entry of the source, merged over
      entries of the same name; hidden entries are not copied. */
  lemma MergeDirectoriesResult(n: Node, src: Path, dst: Path, c: string)
    requires n.Dir? && IsDir(n, src) && Get(n, src).value.entries != map[]
    requires Separate(src, dst) && NoFileOn(n, dst)
    ensures IsDir(MergedDirectories(n, src, dst), dst)
    ensures
      var es := Get(n, src).value.entries;
      var before := if IsDir(n, dst) then Get(n, dst).value.entries else map[];
      var after := Get(MergedDirectories(n, src, dst), dst).value.entries;
      && after.Keys == before.Keys + Visible(es).Keys
      && (c in es && !Hidden(c) && c !in before ==> after[c] == es[c])
      && (c in before && c !in Visible(es) ==> after[c] == before[c])
      && (c in before && c in Visible(es) ==> after[c] == Union(before[c], es[c]))
  {
    var es := Get(n, src).value.entries;
    assert |es| > 0 by {
      var x :| x in es;
    }
    var n1 := Mkdirp(n, dst);
    MkdirpAt(n, dst);
    MkdirpElsewhere(n, dst, src);
    assert dst != [];
    var target := Union(Get(n1, dst).value, Dir(Visible(es)));
    assert MergedDirectories(n, src, dst) == Place(n1, dst, Some(target));
    AncestorIsDir(n1, dst, Parent(dst));
    PlaceBelow(n1, dst, Some(target), dst);
  }
}
