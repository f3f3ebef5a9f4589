/** Error.go: the GeoError record, its functional options and the creator that
    applies them, plus the outcome type shared by the whole reader. */
module Errors {

  datatype Option<+T> = None | Some(value: T)

  /** A Go `error` value as this package produces one: errors.New(text), or a
      GeoError used as an error. */
  datatype ErrorValue =
    | Text(text: string)
    | Geo(inner: GeoError)

  /** GeoError{Err, Function, Msg}; `err == None` is Go's nil error. */
  datatype GeoError = GeoError(err: Option<ErrorValue>, functionName: string, msg: string)

  /** The four GeoErrorOptions constructors: WithFunction, WithMsg, WithError and
      WithErrorText. */
  datatype ErrorOption =
    | WithFunction(functionName: string)
    | WithMsg(msg: string)
    | WithError(err: Option<ErrorValue>)
    | WithErrorText(text: string)

  /** The three fields of a GeoError. */
  datatype Field = FunctionField | MsgField | ErrField

  /** The field an option writes. */
  function Touches(opt: ErrorOption): Field {
    match opt
    case WithFunction(_) => FunctionField
    case WithMsg(_) => MsgField
    case WithError(_) => ErrField
    case WithErrorText(_) => ErrField
  }

  /** Running one option closure on a *GeoError. */
  function Apply(ge: GeoError, opt: ErrorOption): GeoError {
    match opt
    case WithFunction(f) => ge.(functionName := f)
    case WithMsg(m) => ge.(msg := m)
    case WithError(e) => ge.(err := e)
    case WithErrorText(t) => ge.(err := Some(Text(t)))
  }

  /** The creator's loop `for _, opt := range opts { opt(&ge) }`, as a left fold. */
  function ApplyAll(ge: GeoError, opts: seq<ErrorOption>): GeoError
    decreases |opts|
  {
    if opts == [] then ge else ApplyAll(Apply(ge, opts[0]), opts[1..])
  }

  /** NewGeoErrorCreator(name)(opts...). */
  function Create(name: string, opts: seq<ErrorOption>): GeoError {
    ApplyAll(GeoError(None, name, ""), opts)
  }

  /** GeoError.Error(): fmt.Sprintf("[%s]: %v\n", Function, Err). */
  function ErrorString(ge: GeoError): string
    decreases ge, 1
  {
    "[" + ge.functionName + "]: " + ValueText(ge.err) + "\n"
  }

  /** `%v` of an error: "<nil>" for nil, the text of errors.New, Error() of a GeoError. */
  function ValueText(e: Option<ErrorValue>): string
    decreases e, 0
  {
    match e
    case None => "<nil>"
    case Some(Text(t)) => t
    case Some(Geo(g)) => ErrorString(g)
  }

  // ---------------------------------------------------------------------------
  // Reference definitions: the value a field ends with is the one set by the
  // LAST option touching it (read from the right), or the creator's default.

  function LastFunction(dflt: string, opts: seq<ErrorOption>): string {
    if opts == [] then dflt
    else if opts[|opts| - 1].WithFunction? then opts[|opts| - 1].functionName
    else LastFunction(dflt, opts[..|opts| - 1])
  }

  function LastMsg(dflt: string, opts: seq<ErrorOption>): string {
    if opts == [] then dflt
    else if opts[|opts| - 1].WithMsg? then opts[|opts| - 1].msg
    else LastMsg(dflt, opts[..|opts| - 1])
  }

  function LastErr(dflt: Option<ErrorValue>, opts: seq<ErrorOption>): Option<ErrorValue> {
    if opts == [] then dflt
    else match opts[|opts| - 1]
      case WithError(e) => e
      case WithErrorText(t) => Some(Text(t))
      case _ => LastErr(dflt, opts[..|opts| - 1])
  }

  /** A creator with no options yields {Err: nil, Function: name, Msg: ""}. */
  lemma CreateWithoutOptions(name: string)
    ensures Create(name, []) == GeoError(None, name, "")
    ensures ErrorString(Create(name, [])) == "[" + name + "]: <nil>\n"
  {
  }

  /** Each option changes exactly the field it touches. */
  lemma ApplyChangesOneField(ge: GeoError, opt: ErrorOption)
    ensures Touches(opt) != FunctionField ==> Apply(ge, opt).functionName == ge.functionName
    ensures Touches(opt) != MsgField ==> Apply(ge, opt).msg == ge.msg
    ensures Touches(opt) != ErrField ==> Apply(ge, opt).err == ge.err
    ensures opt.WithErrorText? ==> ValueText(Apply(ge, opt).err) == opt.text
  {
  }

  /** Options are applied left to right: a longer option list continues from the
      error the shorter one built. */
  lemma {:induction false} ApplyAllSplit(ge: GeoError, a: seq<ErrorOption>, b: seq<ErrorOption>)
    ensures ApplyAll(ge, a + b) == ApplyAll(ApplyAll(ge, a), b)
    decreases |a|
  {
    if a == [] {
      assert a + b == b;
    } else {
      assert (a + b)[0] == a[0] && (a + b)[1..] == a[1..] + b;
      ApplyAllSplit(Apply(ge, a[0]), a[1..], b);
    }
  }

  /** The last option touching a field wins; untouched fields keep the
      creator's defaults. */
  lemma {:induction false} LastOptionWins(name: string, opts: seq<ErrorOption>)
    ensures Create(name, opts).functionName == LastFunction(name, opts)
    ensures Create(name, opts).msg == LastMsg("", opts)
    ensures Create(name, opts).err == LastErr(None, opts)
    decreases |opts|
  {
    if opts != [] {
      var init := opts[..|opts| - 1];
      var last := opts[|opts| - 1];
      assert opts == init + [last];
      ApplyAllSplit(GeoError(None, name, ""), init, [last]);
      LastOptionWins(name, init);
    }
  }

  /** Options that never write Err leave it as it was. */
  lemma {:induction false} OptionsKeepErr(ge: GeoError, opts: seq<ErrorOption>)
    requires forall i :: 0 <= i < |opts| ==> Touches(opts[i]) != ErrField
    ensures ApplyAll(ge, opts).err == ge.err
    decreases |opts|
  {
    if opts != [] {
      OptionsKeepErr(Apply(ge, opts[0]), opts[1..]);
    }
  }

  /** Error() depends only on Function and Err: Msg never appears in it. */
  lemma ErrorStringIgnoresMsg(ge: GeoError, m: string)
    ensures ErrorString(ge.(msg := m)) == ErrorString(ge)
  {
  }

  // ---------------------------------------------------------------------------
  // The outcome of an operation of the reader.

  /** Ok, a returned Go error (Fail), or a Go runtime panic (index out of range,
      division by zero) that aborts the whole decode. */
  datatype Result<+T> = Ok(value: T) | Fail(error: ErrorValue) | Panic(reason: string) {
    predicate IsFailure() {
      !Ok?
    }

    function PropagateFailure<U>(): Result<U>
      requires !Ok?
    {
      if Fail? then Fail(error) else Panic(reason)
    }

    function Extract(): T
      requires Ok?
    {
      value
    }

    /** `if err != nil { return gEC(opts..., WithError(err), more...) }`: a returned
        error is wrapped by the package creator; panics pass through unchanged. */
    function Wrap(opts: seq<ErrorOption>, more: seq<ErrorOption>): Result<T> {
      if Fail? then Fail(Geo(Create("", opts + [WithError(Some(error))] + more))) else this
    }
  }

  /** `return gEC(opts...)`: a new error from the package-level creator, whose
      name is empty. */
  function Raise<T>(opts: seq<ErrorOption>): Result<T> {
    Fail(Geo(Create("", opts)))
  }

  /** The outcome of a loop that appends one element per iteration: the elements
      produced so far, followed by what the remaining iterations produce. */
  function Prepend<T>(done: seq<T>, rest: Result<seq<T>>): Result<seq<T>> {
    if rest.Ok? then Ok(done + rest.value) else rest
  }

  /** Prepending in two steps is prepending the concatenation. */
  lemma PrependPrepend<T>(a: seq<T>, b: seq<T>, rest: Result<seq<T>>)
    ensures Prepend(a, Prepend(b, rest)) == Prepend(a + b, rest)
  {
    if rest.Ok? {
      assert a + (b + rest.value) == (a + b) + rest.value;
    }
  }

  /** The outcome of `for i := lo; i < n; i++ { v, err := step(i); if err != nil
      { return err }; out[i] = v }`: the values of steps i..n - 1, or the first
      error or panic. */
  function Collect<T>(step: nat --> Result<T>, i: nat, n: nat): Result<seq<T>>
    requires forall k :: i <= k < n ==> step.requires(k)
    decreases n - i
  {
    if i >= n then Ok([])
    else
      var r := step(i);
      if r.Ok? then Prepend([r.value], Collect(step, i + 1, n)) else r.PropagateFailure()
  }

  /** A completed loop ran every step, and element k - i is what step k
      returned. */
  lemma {:induction false} CollectFrom<T>(step: nat --> Result<T>, i: nat, n: nat)
    requires i <= n && forall k :: i <= k < n ==> step.requires(k)
    requires Collect(step, i, n).Ok?
    ensures |Collect(step, i, n).value| == n - i
    ensures forall k :: i <= k < n ==> step(k) == Ok(Collect(step, i, n).value[k - i])
    decreases n - i
  {
    if i < n {
      CollectFrom(step, i + 1, n);
      var rest := Collect(step, i + 1, n).value;
      assert Collect(step, i, n).value == [step(i).value] + rest;
      assert step(i) == Ok(Collect(step, i, n).value[i - i]);
      forall k | i < k < n
        ensures step(k) == Ok(Collect(step, i, n).value[k - i])
      {
        assert Collect(step, i, n).value[k - i] == rest[k - (i + 1)];
      }
    }
  }

  /** A completed loop from 0 ran every step, and element k is what step k
      returned. */
  lemma CollectAll<T>(step: nat --> Result<T>, n: nat)
    requires forall k :: 0 <= k < n ==> step.requires(k)
    requires Collect(step, 0, n).Ok?
    ensures |Collect(step, 0, n).value| == n
    ensures forall k :: 0 <= k < n ==> step(k) == Ok(Collect(step, 0, n).value[k])
  {
    CollectFrom(step, 0, n);
    forall k | 0 <= k < n
      ensures step(k) == Ok(Collect(step, 0, n).value[k])
    {
      assert k - 0 == k;
    }
  }

  /** A loop that did not complete returned what its first unsuccessful step
      returned. */
  lemma {:induction false} CollectStops<T>(step: nat --> Result<T>, i: nat, n: nat)
    requires forall k :: i <= k < n ==> step.requires(k)
    requires !Collect(step, i, n).Ok?
    ensures exists k :: i <= k < n && !step(k).Ok? && Collect(step, i, n) == step(k).PropagateFailure() &&
                        forall j :: i <= j < k ==> step(j).Ok?
    decreases n - i
  {
    if step(i).Ok? {
      CollectStops(step, i + 1, n);
      var k :| i + 1 <= k < n && !step(k).Ok? && Collect(step, i + 1, n) == step(k).PropagateFailure() &&
                forall j :: i + 1 <= j < k ==> step(j).Ok?;
      assert forall j :: i <= j < k ==> step(j).Ok?;
    }
  }

  /** The loop Collect describes, storing value k at out[k] of a slice made
      beforehand: on success out holds every value; when step k fails, the
      loop returns that failure with out[0..k] stored and the rest of out as
      it was. */
  method CollectInto<T>(out: array<T>, step: nat --> Result<T>) returns (r: Result<()>)
    requires forall k :: 0 <= k < out.Length ==> step.requires(k)
    modifies out
    ensures var s := Collect(step, 0, out.Length);
      (s.Ok? ==> r == Ok(()) && out[..] == s.value) &&
      (!s.Ok? ==> r == s.PropagateFailure())
    ensures !r.Ok? ==> exists k :: (0 <= k < out.Length && !step(k).Ok? && r == step(k).PropagateFailure() &&
                                    out[k..] == old(out[k..]) && forall j :: 0 <= j < k ==> step(j) == Ok(out[j]))
  {
    ghost var n := out.Length;
    assert Prepend(out[..0], Collect(step, 0, n)) == Collect(step, 0, n) by {
      assert out[..0] == [];
      if Collect(step, 0, n).Ok? {
        assert [] + Collect(step, 0, n).value == Collect(step, 0, n).value;
      }
    }
    var i := 0;
    while i < out.Length
      invariant 0 <= i <= n
      invariant Collect(step, 0, n) == Prepend(out[..i], Collect(step, i, n))
      invariant out[i..] == old(out[i..])
      invariant forall j :: 0 <= j < i ==> step(j) == Ok(out[j])
    {
      var v := step(i);
      if !v.Ok? {
        return v.PropagateFailure();
      }
      PrependPrepend(out[..i], [v.value], Collect(step, i + 1, n));
      ghost var prev := out[..];
      out[i] := v.value;
      assert out[..i + 1] == prev[..i] + [v.value];
      assert out[i + 1..] == prev[i + 1..];
      i := i + 1;
    }
    assert out[..n] + [] == out[..];
    return Ok(());
  }

  const OutOfRange := "index out of range"
  const DivideByZero := "integer divide by zero"

  // ---------------------------------------------------------------------------
  // fmt verbs used in the messages.

  function DigitChar(d: nat): char
    requires d < 16
  {
    "0123456789abcdef"[d]
  }

  /** `%d` of a non-negative integer. */
  function Decimal(n: nat): string
    decreases n
  {
    if n < 10 then [DigitChar(n)] else Decimal(n / 10) + [DigitChar(n % 10)]
  }

  /** `%d` / `%v` of a signed integer. */
  function DecimalInt(i: int): string {
    if i < 0 then "-" + Decimal(-i) else Decimal(i)
  }

  /** `%x` of a non-negative integer. */
  function LowerHex(n: nat): string
    decreases n
  {
    if n < 16 then [DigitChar(n)] else LowerHex(n / 16) + [DigitChar(n % 16)]
  }
}
