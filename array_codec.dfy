/** The fixed-length array codec: how a `[T; N]` is written as a tuple of
    exactly N elements and read back by a visitor that fills an N-slot buffer.

    The serialization framework is reduced to its element-sequence contract:
    - a serializer is the sequence of wire values it receives, in order;
    - a `SeqAccess` is the sequence of wire values still to be read;
    - an element type is a pair of functions, `enc` (its serialize) and
      `dec` (its deserialize, which may fail).
 */
module ArrayCodec {

  datatype Option<T> = None | Some(value: T)

  /** Errors of the serialization framework. `InvalidLength(index)` is the
      one the codec raises itself (`invalid_length(index, ..)`), reporting the
      first buffer slot the input could not fill. `Custom(code)` stands for
      every other error an element's serializer or deserializer may raise
      (`invalid_type`, `custom`, ...), told apart by a code. Errors raised by
      an element are passed through unchanged. */
  datatype Error = InvalidLength(index: nat) | Custom(code: nat)

  datatype Result<T> = Ok(value: T) | Err(error: Error)

  // ---------------------------------------------------------------------
  // Serialization
  // ---------------------------------------------------------------------

  /** The wire form of an array: each element's encoding, front to back; the
      first element that fails to serialize ends it with that element's error. */
  function Encode<T, V>(a: seq<T>, enc: T -> Result<V>): Result<seq<V>>
  {
    if a == [] then Ok([])
    else match enc(a[0])
      case Err(e) => Err(e)
      case Ok(v) =>
        match Encode(a[1..], enc)
        case Err(e) => Err(e)
        case Ok(vs) => Ok([v] + vs)
  }

  /** Serialization succeeds exactly when every element serializes; the wire
      form then has one value per element, value i encoding element i. */
  lemma {:induction false} EncodeSucceeds<T, V>(a: seq<T>, enc: T -> Result<V>)
    ensures Encode(a, enc).Ok? <==> forall i :: 0 <= i < |a| ==> enc(a[i]).Ok?
    ensures Encode(a, enc).Ok? ==>
              |Encode(a, enc).value| == |a|
              && forall i :: 0 <= i < |a| ==> enc(a[i]) == Ok(Encode(a, enc).value[i])
  {
    if a != [] {
      EncodeSucceeds(a[1..], enc);
      assert forall i :: 0 < i < |a| ==> a[1..][i - 1] == a[i];
      if Encode(a, enc).Ok? {
        var vs := Encode(a, enc).value;
        assert vs == [enc(a[0]).value] + Encode(a[1..], enc).value;
        forall i | 0 < i < |a|
          ensures enc(a[i]) == Ok(vs[i])
        {
          assert vs[i] == Encode(a[1..], enc).value[i - 1];
        }
      }
    }
  }

  /** The first element that fails to serialize (the `?` on
      `serialize_element`) ends serialization with that element's error. */
  lemma {:induction false} EncodeBadElement<T, V>(a: seq<T>, k: nat, enc: T -> Result<V>)
    requires k < |a|
    requires forall j :: 0 <= j < k ==> enc(a[j]).Ok?
    requires enc(a[k]).Err?
    ensures Encode(a, enc) == Err(enc(a[k]).error)
  {
    if k > 0 {
      assert forall j :: 0 <= j < k - 1 ==> a[1..][j] == a[j + 1];
      assert a[1..][k - 1] == a[k];
      EncodeBadElement(a[1..], k - 1, enc);
    }
  }

  /** `serialize`: opens a tuple of |a| elements and emits every element into
      it in index order, stopping at the first element that fails. */
  method Serialize<T, V>(a: seq<T>, enc: T -> Result<V>) returns (out: Result<seq<V>>)
    ensures out == Encode(a, enc)
    ensures out.Ok? ==> |out.value| == |a| && forall i :: 0 <= i < |a| ==> enc(a[i]) == Ok(out.value[i])
  {
    var emitted: seq<V> := [];
    for i := 0 to |a|
      invariant |emitted| == i
      invariant forall j :: 0 <= j < i ==> enc(a[j]) == Ok(emitted[j])
    {
      var v := enc(a[i]);
      if v.Err? {
        EncodeBadElement(a, i, enc);
        return Err(v.error);
      }
      emitted := emitted + [v.value];
    }
    EncodeSucceeds(a, enc);
    assert Encode(a, enc).value == emitted;
    out := Ok(emitted);
  }

  // ---------------------------------------------------------------------
  // Deserialization
  // ---------------------------------------------------------------------

  /** `SeqAccess::next_element`: `Ok(None)` once the input is exhausted,
      otherwise the decoded next element (or its decoding error), together
      with what is left to read. */
  function NextElement<V, T>(remaining: seq<V>, dec: V -> Result<T>): (Result<Option<T>>, seq<V>)
  {
    if remaining == [] then (Ok(None), [])
    else match dec(remaining[0])
      case Err(e) => (Err(e), remaining[1..])
      case Ok(t) => (Ok(Some(t)), remaining[1..])
  }

  /** Reference reading of slots i..n from `input`, one element per slot:
      the slot that finds the input exhausted reports its own index; an
      element that fails to decode ends the reading with its error. */
  function DecodeFrom<V, T>(n: nat, i: nat, input: seq<V>, dec: V -> Result<T>): Result<seq<T>>
    requires i <= n
    decreases n - i
  {
    if i == n then Ok([])
    else if input == [] then Err(InvalidLength(i))
    else match dec(input[0])
      case Err(e) => Err(e)
      case Ok(t) =>
        match DecodeFrom(n, i + 1, input[1..], dec)
        case Err(e) => Err(e)
        case Ok(ts) => Ok([t] + ts)
  }

  /** Deserializing an array of n elements from the tuple's elements. */
  function Decode<V, T>(n: nat, input: seq<V>, dec: V -> Result<T>): Result<seq<T>>
  {
    DecodeFrom(n, 0, input, dec)
  }

  /** Slots already filled in front of a reading of the remaining slots. */
  function Prepend<T>(done: seq<T>, r: Result<seq<T>>): Result<seq<T>>
  {
    match r
    case Ok(ts) => Ok(done + ts)
    case Err(e) => Err(e)
  }

  /** `ArrayVisitor::visit_seq`: pre-fills an n-slot buffer with `dflt`
      (`T::default()`), then overwrites slot i with the i-th element read
      from the input, failing at the first slot the input cannot fill.
      `rest` is what the `SeqAccess` still holds afterwards. */
  method VisitSeq<V, T>(n: nat, dflt: T, input: seq<V>, dec: V -> Result<T>)
    returns (r: Result<seq<T>>, rest: seq<V>)
    ensures r == Decode(n, input, dec)
    ensures r.Ok? ==> n <= |input| && rest == input[n..]
  {
    var arr := new T[n](_ => dflt);
    var remaining := input;
    PrependNothing(DecodeFrom(n, 0, input, dec));
    for i := 0 to n
      invariant i <= |input| && remaining == input[i..]
      invariant Decode(n, input, dec) == Prepend(arr[..i], DecodeFrom(n, i, remaining, dec))
    {
      ghost var unread := remaining;
      var step := NextElement(remaining, dec);
      var next := step.0;
      remaining := step.1;
      assert input[i..] != [] ==> remaining == input[i + 1..];
      match next {
        case Err(e) =>
          assert DecodeFrom(n, i, unread, dec) == Err(e);
          return Err(e), remaining;
        case Ok(None) =>
          assert DecodeFrom(n, i, unread, dec) == Err(InvalidLength(i));
          return Err(InvalidLength(i)), remaining;
        case Ok(Some(t)) =>
          ghost var before := arr[..i];
          arr[i] := t;
          PrependStep(before, t, DecodeFrom(n, i + 1, remaining, dec));
          assert arr[..i + 1] == before + [t];
      }
    }
    assert arr[..n] + [] == arr[..];
    r, rest := Ok(arr[..]), remaining;
  }

  lemma PrependNothing<T>(r: Result<seq<T>>)
    ensures Prepend([], r) == r
  {
    if r.Ok? {
      assert [] + r.value == r.value;
    }
  }

  lemma PrependStep<T>(done: seq<T>, t: T, r: Result<seq<T>>)
    ensures Prepend(done, match r case Ok(ts) => Ok([t] + ts) case Err(e) => Err(e))
         == Prepend(done + [t], r)
  {
    if r.Ok? {
      assert done + ([t] + r.value) == (done + [t]) + r.value;
    }
  }

  // ---------------------------------------------------------------------
  // Properties of deserialization
  // ---------------------------------------------------------------------

  lemma {:induction false} DecodeFromOk<V, T>(n: nat, i: nat, input: seq<V>, dec: V -> Result<T>)
    requires i <= n
    requires DecodeFrom(n, i, input, dec).Ok?
    ensures n - i <= |input|
    ensures |DecodeFrom(n, i, input, dec).value| == n - i
    ensures forall j :: 0 <= j < n - i ==> dec(input[j]) == Ok(DecodeFrom(n, i, input, dec).value[j])
    decreases n - i
  {
    if i < n {
      DecodeFromOk(n, i + 1, input[1..], dec);
      var s := DecodeFrom(n, i, input, dec).value;
      assert s == [dec(input[0]).value] + DecodeFrom(n, i + 1, input[1..], dec).value;
      forall j | 0 < j < n - i
        ensures dec(input[j]) == Ok(s[j])
      {
        assert input[j] == input[1..][j - 1];
      }
    }
  }

  lemma {:induction false} DecodeFromComplete<V, T>(n: nat, i: nat, input: seq<V>, dec: V -> Result<T>)
    requires i <= n && n - i <= |input|
    requires forall j :: 0 <= j < n - i ==> dec(input[j]).Ok?
    ensures DecodeFrom(n, i, input, dec).Ok?
    decreases n - i
  {
    if i < n {
      forall j | 0 <= j < n - (i + 1)
        ensures dec(input[1..][j]).Ok?
      {
        assert input[1..][j] == input[j + 1];
      }
      DecodeFromComplete(n, i + 1, input[1..], dec);
    }
  }

  /** Deserialization succeeds exactly when the input holds n elements that
      all decode; slot i of the result is then the decoding of element i,
      so the pre-fill value never survives. */
  lemma DecodeSucceeds<V, T>(n: nat, input: seq<V>, dec: V -> Result<T>)
    ensures Decode(n, input, dec).Ok? <==> (n <= |input| && forall j :: 0 <= j < n ==> dec(input[j]).Ok?)
    ensures Decode(n, input, dec).Ok? ==>
              |Decode(n, input, dec).value| == n
              && forall j :: 0 <= j < n ==> dec(input[j]) == Ok(Decode(n, input, dec).value[j])
  {
    if Decode(n, input, dec).Ok? {
      DecodeFromOk(n, 0, input, dec);
    } else if n <= |input| && forall j :: 0 <= j < n ==> dec(input[j]).Ok? {
      DecodeFromComplete(n, 0, input, dec);
    }
  }

  lemma {:induction false} DecodeFromShort<V, T>(n: nat, i: nat, input: seq<V>, dec: V -> Result<T>)
    requires i <= n && i + |input| < n
    requires forall j :: 0 <= j < |input| ==> dec(input[j]).Ok?
    ensures DecodeFrom(n, i, input, dec) == Err(InvalidLength(i + |input|))
    decreases n - i
  {
    if input != [] {
      forall j | 0 <= j < |input[1..]|
        ensures dec(input[1..][j]).Ok?
      {
        assert input[1..][j] == input[j + 1];
      }
      DecodeFromShort(n, i + 1, input[1..], dec);
    }
  }

  /** An input of k < n well-formed elements fails with a length error at
      exactly k, the first slot left unfilled; no partial array is returned. */
  lemma DecodeShort<V, T>(n: nat, input: seq<V>, dec: V -> Result<T>)
    requires |input| < n
    requires forall j :: 0 <= j < |input| ==> dec(input[j]).Ok?
    ensures Decode(n, input, dec) == Err(InvalidLength(|input|))
  {
    DecodeFromShort(n, 0, input, dec);
  }

  lemma {:induction false} DecodeFromBadElement<V, T>(n: nat, i: nat, k: nat, input: seq<V>, dec: V -> Result<T>)
    requires i <= n && k < n - i && k < |input|
    requires forall j :: 0 <= j < k ==> dec(input[j]).Ok?
    requires dec(input[k]).Err?
    ensures DecodeFrom(n, i, input, dec) == Err(dec(input[k]).error)
    decreases n - i
  {
    if k > 0 {
      forall j | 0 <= j < k - 1
        ensures dec(input[1..][j]).Ok?
      {
        assert input[1..][j] == input[j + 1];
      }
      assert input[1..][k - 1] == input[k];
      DecodeFromBadElement(n, i + 1, k - 1, input[1..], dec);
    }
  }

  /** The first element that fails to decode (the `?` on `next_element`)
      ends deserialization with that element's own error. */
  lemma DecodeBadElement<V, T>(n: nat, k: nat, input: seq<V>, dec: V -> Result<T>)
    requires k < n && k < |input|
    requires forall j :: 0 <= j < k ==> dec(input[j]).Ok?
    requires dec(input[k]).Err?
    ensures Decode(n, input, dec) == Err(dec(input[k]).error)
  {
    DecodeFromBadElement(n, 0, k, input, dec);
  }

  lemma {:induction false} DecodeFromPrefix<V, T>(n: nat, i: nat, input: seq<V>, extra: seq<V>, dec: V -> Result<T>)
    requires i <= n && n - i <= |input|
    ensures DecodeFrom(n, i, input + extra, dec) == DecodeFrom(n, i, input, dec)
    decreases n - i
  {
    if i < n {
      assert (input + extra)[1..] == input[1..] + extra;
      DecodeFromPrefix(n, i + 1, input[1..], extra, dec);
    }
  }

  /** The visitor reads only the first n elements: whatever follows them
      does not influence the result. */
  lemma DecodeReadsPrefix<V, T>(n: nat, input: seq<V>, extra: seq<V>, dec: V -> Result<T>)
    requires n <= |input|
    ensures Decode(n, input + extra, dec) == Decode(n, input, dec)
  {
    DecodeFromPrefix(n, 0, input, extra, dec);
  }

  /** Round trip: reading back what `Serialize` wrote gives the original
      array, whatever the format appends after it, provided every element
      serializes and decodes back to itself. */
  lemma RoundTrip<T, V>(a: seq<T>, extra: seq<V>, enc: T -> Result<V>, dec: V -> Result<T>)
    requires forall i :: 0 <= i < |a| ==> enc(a[i]).Ok? && dec(enc(a[i]).value) == Ok(a[i])
    ensures Encode(a, enc).Ok? && Decode(|a|, Encode(a, enc).value + extra, dec) == Ok(a)
  {
    EncodeSucceeds(a, enc);
    var wire := Encode(a, enc).value;
    DecodeReadsPrefix(|a|, wire, extra, dec);
    forall j | 0 <= j < |a|
      ensures dec(wire[j]) == Ok(a[j])
    {
      assert enc(a[j]) == Ok(wire[j]);
    }
    DecodeSucceeds(|a|, wire, dec);
    var s := Decode(|a|, wire, dec).value;
    forall j | 0 <= j < |a|
      ensures s[j] == a[j]
    {
      assert dec(wire[j]) == Ok(s[j]);
    }
    assert s == a;
  }
}
