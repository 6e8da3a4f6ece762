/**
 * `Core.setOptions(defaultOptions, options)`: the options merge every other
 * helper uses to fill in its defaults.
 */
module Options {
  import opened Wrappers
  import opened JsObjects

  /** The second argument: left out (`undefined`), `null`, or an object. */
  datatype OptionsArg = Omitted | NullOptions | Given(obj: Obj)

  /** Reading a property of `null` throws. */
  datatype Error = TypeError

  /** An option counts as not set when it is `undefined`, `null` or `''`. */
  predicate Unset(v: JsValue) {
    v == Undefined || v == Null || v == Str("")
  }

  /** `options[k]` once `undefined` options have been replaced by `{}`. */
  function OptionAt(options: OptionsArg, k: string): JsValue {
    match options
    case Given(o) => Get(o, k)
    case _ => Undefined
  }

  /** The value a key of the merge receives. */
  function Pick(defaultValue: JsValue, option: JsValue): (r: JsValue)
    ensures Unset(option) ==> r == defaultValue
    ensures !Unset(option) ==> r == option
  {
    if Unset(option) then defaultValue else option
  }

  /**
   * A picked value is settled: picking again against the same default keeps
   * it, and it is unset only when both the option and the default are.
   */
  lemma PickSettled(defaultValue: JsValue, option: JsValue)
    ensures Pick(defaultValue, Pick(defaultValue, option)) == Pick(defaultValue, option)
    ensures Unset(Pick(defaultValue, option)) <==> Unset(option) && Unset(defaultValue)
  {
  }

  /** What `setOptions` returns or throws, stated key by key. */
  function Merged(defaults: Obj, options: OptionsArg): (r: Result<Obj, Error>)
    requires Valid(defaults)
    ensures r.Success? ==> Valid(r.value) && r.value.keys == defaults.keys
  {
    if options.NullOptions? && |defaults.keys| > 0 then Failure(TypeError)
    else Success(Obj(defaults.keys, map k | k in defaults.vals :: Pick(defaults.vals[k], OptionAt(options, k))))
  }

  /**
   * The merge loop: walks the default keys in order, writing one key of the
   * new object per step.
   */
  method SetOptions(defaults: Obj, options: OptionsArg) returns (r: Result<Obj, Error>)
    requires Valid(defaults)
    ensures r == Merged(defaults, options)
    ensures r.Failure? <==> options.NullOptions? && |defaults.keys| > 0
    ensures r.Success? ==> Valid(r.value) && r.value.keys == defaults.keys
    ensures r.Success? ==> forall k :: k in defaults.keys ==>
      Get(r.value, k) == Pick(Get(defaults, k), OptionAt(options, k))
  {
    // `if (options === undefined) options = {};` is folded into OptionAt.
    var newOptions := Empty;
    var i := 0;
    while i < |defaults.keys|
      invariant 0 <= i <= |defaults.keys|
      invariant options.NullOptions? ==> i == 0
      invariant MergedPrefix(defaults, options, newOptions, i)
    {
      var thisKey := defaults.keys[i];
      var defaultValue := Get(defaults, thisKey);
      if options.NullOptions? {
        // `options[thisKey]` on null
        return Failure(TypeError);
      }
      var thisOptionUnset := Unset(OptionAt(options, thisKey));
      MergeStep(defaults, options, newOptions, i);
      if thisOptionUnset {
        newOptions := Put(newOptions, thisKey, defaultValue);
      } else {
        newOptions := Put(newOptions, thisKey, OptionAt(options, thisKey));
      }
      i := i + 1;
    }
    MergedOfPrefix(defaults, options, newOptions);
    r := Success(newOptions);
  }

  /** The loop's invariant: `newOptions` holds the merge of the first `i` default keys. */
  ghost predicate MergedPrefix(defaults: Obj, options: OptionsArg, newOptions: Obj, i: nat)
    requires Valid(defaults)
  {
    && i <= |defaults.keys|
    && Valid(newOptions)
    && newOptions.keys == defaults.keys[..i]
    && forall k :: k in newOptions.vals ==>
         k in defaults.vals && newOptions.vals[k] == Pick(defaults.vals[k], OptionAt(options, k))
  }

  /** Writing key `i` extends the merge of the first `i` keys to the first `i + 1`. */
  lemma MergeStep(defaults: Obj, options: OptionsArg, newOptions: Obj, i: nat)
    requires Valid(defaults) && i < |defaults.keys|
    requires MergedPrefix(defaults, options, newOptions, i)
    ensures var k := defaults.keys[i];
      MergedPrefix(defaults, options, Put(newOptions, k, Pick(Get(defaults, k), OptionAt(options, k))), i + 1)
  {
    var k := defaults.keys[i];
    assert k !in newOptions.vals by {
      assert k !in defaults.keys[..i];
    }
    assert defaults.keys[..i + 1] == defaults.keys[..i] + [k];
  }

  /** Once every default key is written, the loop's object is the merge. */
  lemma MergedOfPrefix(defaults: Obj, options: OptionsArg, newOptions: Obj)
    requires Valid(defaults)
    requires options.NullOptions? ==> |defaults.keys| == 0
    requires MergedPrefix(defaults, options, newOptions, |defaults.keys|)
    ensures Merged(defaults, options) == Success(newOptions)
  {
    assert defaults.keys[..|defaults.keys|] == defaults.keys;
    assert newOptions.vals.Keys == defaults.vals.Keys;
    assert newOptions.vals == map k | k in defaults.vals :: Pick(defaults.vals[k], OptionAt(options, k));
  }

  /** Option keys that are not default keys never reach the result. */
  lemma MergedDropsUnknownKeys(defaults: Obj, options: OptionsArg, k: string)
    requires Valid(defaults)
    requires Merged(defaults, options).Success?
    requires k !in defaults.keys
    ensures Get(Merged(defaults, options).value, k) == Undefined
  {
  }

  /** `0` and `false` are real settings: they override the default. */
  lemma MergedKeepsFalsyOptions(defaults: Obj, o: Obj, k: string)
    requires Valid(defaults) && Valid(o)
    requires k in defaults.keys
    requires Get(o, k) == Num(0) || Get(o, k) == Bool(false)
    ensures Get(Merged(defaults, Given(o)).value, k) == Get(o, k)
  {
  }

  /** Leaving the options out yields a copy of the defaults. */
  lemma MergedOmittedIsCopy(defaults: Obj)
    requires Valid(defaults)
    ensures Merged(defaults, Omitted) == Success(defaults)
  {
    var m := Merged(defaults, Omitted).value;
    assert m.vals == defaults.vals;
  }

  /** `null` options throw exactly when there is a default key to read. */
  lemma MergedNullOptions(defaults: Obj)
    requires Valid(defaults)
    ensures Merged(defaults, NullOptions) == if defaults.keys == [] then Success(Empty) else Failure(TypeError)
  {
    if defaults.keys == [] {
      assert defaults.vals.Keys == {};
    }
  }

  /** Merging a merge result again with the same defaults changes nothing. */
  lemma MergedIdempotent(defaults: Obj, options: OptionsArg)
    requires Valid(defaults)
    requires Merged(defaults, options).Success?
    ensures Merged(defaults, Given(Merged(defaults, options).value)) == Merged(defaults, options)
  {
    var m := Merged(defaults, options).value;
    var m2 := Merged(defaults, Given(m)).value;
    forall k | k in defaults.vals
      ensures m2.vals[k] == m.vals[k]
    {
      var dv := defaults.vals[k];
      assert Get(m, k) == Pick(dv, OptionAt(options, k));
    }
    assert m2.vals == m.vals;
  }
}
