/** The formatting bridge `to_string` and the messages of the numeric errors.

    `to_string` runs a renderer that may fail (with a formatting error or an
    interrupt) through `Display`, whose `fmt` can only report a formatting
    error. An adapter object carries two one-shot slots: the renderer's
    result and the interrupt. The renderer itself is seen through one run of
    it: the text it writes and how it ends. */
module Num {
  import opened Wrappers


  /** How one run of the renderer ends: `Ok(r)`, `Err(IntErr::Interrupt(i))`
      or `Err(IntErr::Error(fmt::Error))`. */
  datatype RenderOutcome<R, I> = Rendered(result: R) | Interrupted(interrupt: I) | FormatError

  /** A run of the renderer: the text it writes to the formatter, and how it ends. */
  datatype Renderer<R, I> = Renderer(text: string, outcome: RenderOutcome<R, I>)

  /** `fmt::Result`. */
  datatype FmtResult = FmtOk | FmtErr

  /** `Result<T, IntErr<Never, I>>`: a value, or an interrupt (there is no other error). */
  datatype Outcome<T, I> = Ok(value: T) | Interrupt(interrupt: I)

  /** The adapter `Fmt`: the renderer and the two slots `error` and `result`
      (the `Cell`s) that `fmt` fills. */
  class Fmt<R, I> {
    const format: Renderer<R, I>
    var error: Option<I>
    var result: Option<R>

    /** The slot invariant: a render fills at most one of the two slots. */
    predicate AtMostOneSlot()
      reads this
    {
      error.None? || result.None?
    }

    /** Both slots start empty. */
    constructor (format: Renderer<R, I>)
      ensures this.format == format
      ensures error == None && result == None
    {
      this.format := format;
      error := None;
      result := None;
    }

    /** `Display::fmt`: runs the renderer. A result goes into the result slot
        and fmt succeeds; an interrupt goes into the error slot and fmt still
        succeeds; a formatting error is reported as it is and no slot changes. */
    method DisplayFmt() returns (written: string, status: FmtResult)
      modifies this
      ensures written == format.text
      ensures status == FmtErr <==> format.outcome.FormatError?
      ensures result == (if format.outcome.Rendered? then Some(format.outcome.result) else old(result))
      ensures error == (if format.outcome.Interrupted? then Some(format.outcome.interrupt) else old(error))
      ensures old(error) == None && old(result) == None ==> AtMostOneSlot()
    {
      written := format.text;
      match format.outcome {
        case Rendered(res) =>
          result := Some(res);
          return written, FmtOk;
        case Interrupted(i) =>
          error := Some(i);
          return written, FmtOk;
        case FormatError =>
          return written, FmtErr;
      }
    }
  }

  /** `to_string`: renders through a fresh adapter, then reads the error slot
      and, when it is empty, the result slot. `ToString::to_string` panics when
      `fmt` reports an error, so the renderer must never end with a plain
      formatting error. */
  method ToString<R, I>(func: Renderer<R, I>) returns (r: Outcome<(string, R), I>)
    requires !func.outcome.FormatError?
    ensures func.outcome.Rendered? ==> r == Ok((func.text, func.outcome.result))
    ensures func.outcome.Interrupted? ==> r == Interrupt(func.outcome.interrupt)
  {
    var fmt := new Fmt(func);
    var text, status := fmt.DisplayFmt();
    assert status == FmtOk;
    if fmt.error.Some? {
      return Interrupt(fmt.error.value);
    }
    r := Ok((text, fmt.result.value));
  }

  // ---------------------------------------------------------------------------
  // Numeric errors

  /** `IntegerPowerError`. */
  datatype IntegerPowerError = ExponentTooLarge | ZeroToThePowerOfZero {
    /** Its `Display` text: a fixed sentence that no `ValueTooLarge` message starts like. */
    function Message(): (m: string)
      ensures |m| > 0 && !StartsWithLead(m)
    {
      match this
      case ExponentTooLarge =>
        assert "Exponent too large"[0] != ValueTooLargeLead[0];
        "Exponent too large"
      case ZeroToThePowerOfZero =>
        assert "Zero to the power of zero is undefined"[0] != ValueTooLargeLead[0];
        "Zero to the power of zero is undefined"
    }
  }

  /** `DivideByZero`. */
  datatype DivideByZero = DivideByZero {
    /** Its `Display` text: a fixed sentence that no `ValueTooLarge` message starts like. */
    function Message(): (m: string)
      ensures |m| > 0 && !StartsWithLead(m)
    {
      assert "Division by zero"[0] != ValueTooLargeLead[0];
      "Division by zero"
    }
  }

  /** The fixed text in front of a `ValueTooLarge` bound. */
  const ValueTooLargeLead: string := "Value must be less than or equal to "

  /** `ValueTooLarge<T>`: the bound that was exceeded. */
  datatype ValueTooLarge<T> = ValueTooLarge(maxAllowed: T) {
    /** Its `Display` text, given how the bound itself displays: the fixed
        lead, after which the bound's own text can be read back. */
    function Message(show: T -> string): (m: string)
      ensures StartsWithLead(m)
      ensures m[|ValueTooLargeLead|..] == show(maxAllowed)
    {
      ValueTooLargeLead + show(maxAllowed)
    }
  }

  /** The fixed messages, as the source writes them. */
  lemma FixedMessages(z: DivideByZero)
    ensures ExponentTooLarge.Message() == "Exponent too large"
    ensures ZeroToThePowerOfZero.Message() == "Zero to the power of zero is undefined"
    ensures z.Message() == "Division by zero"
  {
  }

  /** The message starts with the fixed lead of `ValueTooLarge`. */
  predicate StartsWithLead(m: string) {
    |ValueTooLargeLead| <= |m| && m[..|ValueTooLargeLead|] == ValueTooLargeLead
  }

  /** Every message tells which error it comes from: the fixed messages
      differ from each other, none of them starts like a `ValueTooLarge`
      message, and two `ValueTooLarge` messages are equal only when the bounds
      display alike. */
  lemma MessagesIdentifyTheError<T>(p: IntegerPowerError, q: IntegerPowerError, z: DivideByZero,
                                    e: ValueTooLarge<T>, f: ValueTooLarge<T>, show: T -> string)
    ensures p.Message() == q.Message() <==> p == q
    ensures p.Message() != z.Message()
    ensures !StartsWithLead(p.Message()) && !StartsWithLead(z.Message())
    ensures e.Message(show) == f.Message(show) <==> show(e.maxAllowed) == show(f.maxAllowed)
  {
    assert "Exponent too large"[0] != "Zero to the power of zero is undefined"[0];
    assert "Exponent too large"[0] != "Division by zero"[0];
    assert "Zero to the power of zero is undefined"[0] != "Division by zero"[0];
    if show(e.maxAllowed) != show(f.maxAllowed) {
      assert e.Message(show)[|ValueTooLargeLead|..] != f.Message(show)[|ValueTooLargeLead|..];
    }
  }
}
