/**
 * An HTTP message: protocol version, headers and body. Every with* operation
 * leaves the receiver alone and returns a modified copy; because the header
 * store here is a value, the copy's headers are independent of the
 * original's, as the deep copy made when a message is cloned ensures.
 */
module Messages {
  import opened Wrappers
  import opened PhpStrings
  import opened HeaderCollection

  /** The PHP values a caller can pass as a header name or value (floats are not modelled). */
  datatype PhpValue =
    | PString(s: string)
    | PInt(i: int)
    | PBool(b: bool)
    | PNull
    | PArray(items: seq<PhpValue>)

  datatype HeaderError = InvalidArgument(message: string)

  /** A body stream, seen only through its reported size and whether it is readable. */
  datatype Stream = Stream(size: Option<int>, readable: bool)

  /** The empty stream a message gets when none is given. */
  const EmptyStream := Stream(Some(0), true)

  /** is_string($v) || is_numeric($v), for the values modelled. */
  predicate IsStringOrNumber(v: PhpValue)
  {
    v.PString? || v.PInt?
  }

  /** strval on a string or an integer. */
  function StrVal(v: PhpValue): (r: string)
    requires IsStringOrNumber(v)
    ensures v.PString? ==> r == v.s
    ensures v.PInt? ==> ParseInt(r) == Some(v.i)
  {
    if v.PString? then v.s
    else
      IntToStringRoundTrip(v.i);
      IntToString(v.i)
  }

  /** A value that is not an array stands for the one-element list holding it. */
  function AsList(values: PhpValue): (r: seq<PhpValue>)
  {
    if values.PArray? then values.items else [values]
  }

  /**
   * Checks a header name and value(s) given to withHeader or withAddedHeader
   * and converts every value to a string, in order.
   */
  function GetValidatedHeaders(name: PhpValue, values: PhpValue): (r: Result<seq<string>, HeaderError>)
    ensures !name.PString? ==> r == Failure(InvalidArgument("Header name must be a string"))
    ensures name.PString? ==> (r.Success? <==> forall v :: v in AsList(values) ==> IsStringOrNumber(v))
    ensures name.PString? && r.Failure? ==> r.error == InvalidArgument("Header values must be a string or string[]")
    ensures r.Success? ==> |r.value| == |AsList(values)|
  {
    if !name.PString? then Failure(InvalidArgument("Header name must be a string"))
    else
      var list := AsList(values);
      if exists v :: v in list && !IsStringOrNumber(v) then
        Failure(InvalidArgument("Header values must be a string or string[]"))
      else
        Success(seq(|list|, i requires 0 <= i < |list| => StrVal(list[i])))
  }

  /**
   * The accepted values come out in the order given, strings unchanged and
   * integers in a decimal form that reads back to the same integer.
   */
  lemma ValidatedValuesKeepInput(name: PhpValue, values: PhpValue)
    requires GetValidatedHeaders(name, values).Success?
    ensures var out := GetValidatedHeaders(name, values).value;
            var list := AsList(values);
            forall i :: 0 <= i < |list| ==>
              (list[i].PString? ==> out[i] == list[i].s) &&
              (list[i].PInt? ==> ParseInt(out[i]) == Some(list[i].i))
  {
    var out := GetValidatedHeaders(name, values).value;
    var list := AsList(values);
    forall i | 0 <= i < |list| && list[i].PInt? ensures ParseInt(out[i]) == Some(list[i].i) {
      IntToStringRoundTrip(list[i].i);
    }
  }

  // ---------------------------------------------------------------------------
  // The constructor's header argument

  /** A header value given to the constructor: a single string or a list of strings. */
  datatype HeaderInit = One(value: string) | Many(values: seq<string>)

  function InitValues(v: HeaderInit): (r: seq<string>)
  {
    match v
    case One(s) => [s]
    case Many(vs) => vs
  }

  /** The store the constructor builds: each value of each entry assigned in order. */
  function BuildHeaders(init: seq<(string, HeaderInit)>): (r: Collection)
    decreases |init|
  {
    if init == [] then []
    else
      var last := init[|init| - 1];
      SetAll(BuildHeaders(init[..|init| - 1]), last.0, InitValues(last.1))
  }

  lemma {:induction false} BuildHeadersWellFormed(init: seq<(string, HeaderInit)>)
    ensures WellFormed(BuildHeaders(init))
    decreases |init|
  {
    if init != [] {
      var last := init[|init| - 1];
      BuildHeadersWellFormed(init[..|init| - 1]);
      SetAllWellFormed(BuildHeaders(init[..|init| - 1]), last.0, InitValues(last.1));
    }
  }

  lemma BuildHeadersStep(init: seq<(string, HeaderInit)>, i: nat)
    requires i < |init|
    ensures BuildHeaders(init[..i + 1]) == SetAll(BuildHeaders(init[..i]), init[i].0, InitValues(init[i].1))
  {
    assert init[..i + 1][..i] == init[..i];
  }

  /** The values of all entries whose name is the same as n, concatenated in order. */
  function Collected(init: seq<(string, HeaderInit)>, n: string): (r: seq<string>)
    decreases |init|
  {
    if init == [] then []
    else
      var last := init[|init| - 1];
      Collected(init[..|init| - 1], n) + (if Same(last.0, n) then InitValues(last.1) else [])
  }

  /**
   * After construction a name's values are those the argument gives for it,
   * under any spelling of the name, in the order the argument lists them.
   */
  lemma {:induction false} BuildHeadersValues(init: seq<(string, HeaderInit)>, n: string)
    ensures Get(BuildHeaders(init), n) == Collected(init, n)
    decreases |init|
  {
    if init != [] {
      var last := init[|init| - 1];
      BuildHeadersValues(init[..|init| - 1], n);
      SetAllGet(BuildHeaders(init[..|init| - 1]), last.0, InitValues(last.1), n);
    }
  }

  /** The position of the first entry that gives n a value: a name the same as n, with values. */
  function FirstEntry(init: seq<(string, HeaderInit)>, n: string): (r: Option<nat>)
    ensures r.Some? ==> r.value < |init| && Same(init[r.value].0, n) && InitValues(init[r.value].1) != []
    ensures forall j :: 0 <= j < |init| && (r.None? || j < r.value) ==>
              !(Same(init[j].0, n) && InitValues(init[j].1) != [])
    decreases |init|
  {
    if init == [] then None
    else
      var last := init[|init| - 1];
      match FirstEntry(init[..|init| - 1], n)
      case Some(k) => Some(k)
      case None => if Same(last.0, n) && InitValues(last.1) != [] then Some(|init| - 1) else None
  }

  /**
   * After construction n is present exactly when some entry gives it a value,
   * and its field is spelled as the first such entry's name.
   */
  lemma {:induction false} BuildHeadersSpelling(init: seq<(string, HeaderInit)>, n: string)
    ensures Isset(BuildHeaders(init), n) <==> FirstEntry(init, n).Some?
    ensures FirstEntry(init, n).Some? ==>
              Lookup(BuildHeaders(init), n).value.name == init[FirstEntry(init, n).value].0
    decreases |init|
  {
    if init != [] {
      var pre := init[..|init| - 1];
      var last := init[|init| - 1];
      var b := BuildHeaders(pre);
      var vs := InitValues(last.1);
      BuildHeadersSpelling(pre, n);
      if FirstEntry(pre, n).Some? {
        assert init[FirstEntry(pre, n).value] == pre[FirstEntry(pre, n).value];
      }
      if Same(last.0, n) {
        FindSame(SetAll(b, last.0, vs), n, last.0);
        FindSame(b, n, last.0);
        if vs != [] {
          SetAllLookup(b, last.0, vs);
        }
      } else {
        SetAllLookupOther(b, last.0, vs, n);
      }
    }
  }

  // ---------------------------------------------------------------------------
  // Header queries, shared by the Message class and its users

  /** getHeader: the values stored under name, or none. */
  function HeaderValues(h: Collection, name: string): (r: seq<string>)
    ensures !Isset(h, name) ==> r == []
  {
    if Isset(h, name) then Get(h, name) else []
  }

  /** getHeaderLine: the values stored under name joined with ", ", or "". */
  function HeaderLine(h: Collection, name: string): (r: string)
    ensures !Isset(h, name) ==> r == ""
    ensures r == Join(", ", HeaderValues(h, name))
  {
    if Isset(h, name) then Join(", ", Get(h, name)) else ""
  }

  /** A set header has at least one value in a well-formed store. */
  lemma HeaderValuesNonEmpty(h: Collection, name: string)
    ensures WellFormed(h) ==> (HeaderValues(h, name) != [] <==> Isset(h, name))
  {
    if WellFormed(h) {
      GetNonEmpty(h, name);
    }
  }

  /** withHeader: the name then has exactly the new values; other names keep theirs. */
  lemma ReplaceEffect(h: Collection, name: string, values: seq<string>)
    requires WellFormed(h)
    ensures WellFormed(Replace(h, name, values))
    ensures HeaderValues(Replace(h, name, values), name) == values
    ensures Isset(Replace(h, name, values), name) <==> values != []
    ensures forall n :: !Same(n, name) ==> HeaderValues(Replace(h, name, values), n) == HeaderValues(h, n)
    ensures Lookup(Replace(h, name, values), name) == if values == [] then None else Some(Field(name, values))
    ensures forall n :: !Same(n, name) ==> Lookup(Replace(h, name, values), n) == Lookup(h, n)
  {
    var r := Replace(h, name, values);
    ReplaceWellFormed(h, name, values);
    ReplaceKeepsSpelling(h, name, values);
    forall n | !Same(n, name) ensures Lookup(r, n) == Lookup(h, n) {
      ReplaceLookupOther(h, name, values, n);
    }
    ReplaceGet(h, name, values, name);
    GetNonEmpty(r, name);
    forall n | !Same(n, name) ensures HeaderValues(r, n) == HeaderValues(h, n) {
      ReplaceGet(h, name, values, n);
      GetNonEmpty(r, n);
      GetNonEmpty(h, n);
    }
  }

  /** withAddedHeader: the new values follow the old ones; other names keep theirs. */
  lemma AppendEffect(h: Collection, name: string, values: seq<string>)
    requires WellFormed(h)
    ensures WellFormed(SetAll(h, name, values))
    ensures HeaderValues(SetAll(h, name, values), name) == HeaderValues(h, name) + values
    ensures forall n :: !Same(n, name) ==> HeaderValues(SetAll(h, name, values), n) == HeaderValues(h, n)
  {
    var r := SetAll(h, name, values);
    SetAllWellFormed(h, name, values);
    SetAllGet(h, name, values, name);
    GetNonEmpty(r, name);
    GetNonEmpty(h, name);
    forall n | !Same(n, name) ensures HeaderValues(r, n) == HeaderValues(h, n) {
      SetAllGet(h, name, values, n);
      GetNonEmpty(r, n);
      GetNonEmpty(h, n);
    }
  }

  /**
   * withAddedHeader keeps the spelling a present header already has, stores a
   * new one under the name given, and leaves every other field as it was.
   */
  lemma AppendSpelling(h: Collection, name: string, values: seq<string>)
    requires values != []
    ensures Lookup(SetAll(h, name, values), name).Some?
    ensures Lookup(SetAll(h, name, values), name).value.name ==
              if Isset(h, name) then Lookup(h, name).value.name else name
    ensures forall n :: !Same(n, name) ==> Lookup(SetAll(h, name, values), n) == Lookup(h, n)
  {
    SetAllLookup(h, name, values);
    forall n | !Same(n, name) ensures Lookup(SetAll(h, name, values), n) == Lookup(h, n) {
      SetAllLookupOther(h, name, values, n);
    }
  }

  /** Adding one value to a present header extends its line by ", " and that value. */
  lemma AppendLine(h: Collection, name: string, value: string)
    requires WellFormed(h) && Isset(h, name)
    ensures HeaderLine(SetAll(h, name, [value]), name) == HeaderLine(h, name) + ", " + value
  {
    AppendEffect(h, name, [value]);
    GetNonEmpty(h, name);
    JoinAppend(", ", Get(h, name), value);
  }

  /** withoutHeader: the name is gone; other names keep their values. */
  lemma UnsetEffect(h: Collection, name: string)
    requires WellFormed(h)
    ensures WellFormed(Unset(h, name))
    ensures !Isset(Unset(h, name), name) && HeaderValues(Unset(h, name), name) == []
    ensures forall n :: !Same(n, name) ==> HeaderValues(Unset(h, name), n) == HeaderValues(h, n)
    ensures forall n :: !Same(n, name) ==> Lookup(Unset(h, name), n) == Lookup(h, n)
  {
    var r := Unset(h, name);
    forall n | !Same(n, name) ensures Lookup(r, n) == Lookup(h, n) {
      UnsetLookupOther(h, name, n);
    }
    UnsetWellFormed(h, name);
    UnsetRemoves(h, name);
    forall n | !Same(n, name) ensures HeaderValues(r, n) == HeaderValues(h, n) {
      UnsetGet(h, name, n);
      GetNonEmpty(r, n);
      GetNonEmpty(h, n);
    }
  }

  // ---------------------------------------------------------------------------

  class Message {
    var headers: Collection
    var body: Stream
    var protocolVersion: string

    ghost predicate Valid()
      reads this
    {
      WellFormed(headers)
    }

    /** Assigns every value of every entry of init in order; the body defaults to EmptyStream. */
    constructor (init: seq<(string, HeaderInit)>, body: Option<Stream>)
      ensures Valid()
      ensures headers == BuildHeaders(init)
      ensures this.body == (if body.Some? then body.value else EmptyStream)
      ensures protocolVersion == "1.1"
    {
      var store: Collection := [];
      var i := 0;
      while i < |init|
        invariant 0 <= i <= |init|
        invariant store == BuildHeaders(init[..i])
      {
        var name := init[i].0;
        var values := InitValues(init[i].1);
        ghost var before := store;
        var j := 0;
        while j < |values|
          invariant 0 <= j <= |values|
          invariant store == SetAll(before, name, values[..j])
        {
          SetAllStep(before, name, values, j);
          store := Set(store, name, values[j]);
          j := j + 1;
        }
        assert values[..j] == values;
        BuildHeadersStep(init, i);
        i := i + 1;
      }
      assert init[..i] == init;
      BuildHeadersWellFormed(init);
      headers := store;
      this.body := if body.Some? then body.value else EmptyStream;
      protocolVersion := "1.1";
    }

    /** clone: a new message with the same version, body and (copied) headers. */
    constructor Clone(other: Message)
      ensures headers == other.headers && body == other.body && protocolVersion == other.protocolVersion
    {
      headers := other.headers;
      body := other.body;
      protocolVersion := other.protocolVersion;
    }

    method WithProtocolVersion(version: string) returns (m: Message)
      requires Valid()
      ensures fresh(m) && m.Valid()
      ensures m.protocolVersion == version && m.headers == headers && m.body == body
    {
      m := new Message.Clone(this);
      m.protocolVersion := version;
    }

    /** The fields in stored order, each under the name it was stored with. */
    method GetHeaders() returns (r: seq<Field>)
      ensures r == headers
    {
      r := [];
      var i := 0;
      while i < |headers|
        invariant 0 <= i <= |headers|
        invariant r == headers[..i]
      {
        r := r + [headers[i]];
        i := i + 1;
      }
    }

    function HasHeader(name: string): (r: bool)
      reads this
      ensures r <==> exists i :: 0 <= i < |headers| && Same(headers[i].name, name)
    {
      IssetIff(headers, name);
      Isset(headers, name)
    }

    function GetHeader(name: string): (r: seq<string>)
      reads this
      ensures !HasHeader(name) ==> r == []
      ensures Valid() ==> (r != [] <==> HasHeader(name))
    {
      HeaderValuesNonEmpty(headers, name);
      HeaderValues(headers, name)
    }

    function GetHeaderLine(name: string): (r: string)
      reads this
      ensures !HasHeader(name) ==> r == ""
      ensures r == Join(", ", GetHeader(name))
    {
      HeaderLine(headers, name)
    }

    method WithHeader(name: PhpValue, value: PhpValue) returns (r: Result<Message, HeaderError>)
      requires Valid()
      ensures r.Failure? <==> GetValidatedHeaders(name, value).Failure?
      ensures r.Failure? ==> r.error == GetValidatedHeaders(name, value).error
      ensures r.Success? ==> fresh(r.value) && r.value.Valid()
      ensures r.Success? ==> r.value.headers == Replace(headers, name.s, GetValidatedHeaders(name, value).value)
      ensures r.Success? ==> r.value.body == body && r.value.protocolVersion == protocolVersion
    {
      var validated := GetValidatedHeaders(name, value);
      if validated.Failure? {
        return Failure(validated.error);
      }
      var values := validated.value;
      var message := new Message.Clone(this);
      message.headers := Unset(message.headers, name.s);
      ghost var cleared := message.headers;
      var i := 0;
      while i < |values|
        invariant 0 <= i <= |values|
        invariant message.headers == SetAll(cleared, name.s, values[..i])
        invariant message.body == body && message.protocolVersion == protocolVersion
      {
        SetAllStep(cleared, name.s, values, i);
        message.headers := Set(message.headers, name.s, values[i]);
        i := i + 1;
      }
      assert values[..i] == values;
      ReplaceWellFormed(headers, name.s, values);
      return Success(message);
    }

    method WithAddedHeader(name: PhpValue, value: PhpValue) returns (r: Result<Message, HeaderError>)
      requires Valid()
      ensures r.Failure? <==> GetValidatedHeaders(name, value).Failure?
      ensures r.Failure? ==> r.error == GetValidatedHeaders(name, value).error
      ensures r.Success? ==> fresh(r.value) && r.value.Valid()
      ensures r.Success? ==> r.value.headers == SetAll(headers, name.s, GetValidatedHeaders(name, value).value)
      ensures r.Success? ==> r.value.body == body && r.value.protocolVersion == protocolVersion
    {
      var validated := GetValidatedHeaders(name, value);
      if validated.Failure? {
        return Failure(validated.error);
      }
      var values := validated.value;
      var message := new Message.Clone(this);
      var i := 0;
      while i < |values|
        invariant 0 <= i <= |values|
        invariant message.headers == SetAll(headers, name.s, values[..i])
        invariant message.body == body && message.protocolVersion == protocolVersion
      {
        SetAllStep(headers, name.s, values, i);
        message.headers := Set(message.headers, name.s, values[i]);
        i := i + 1;
      }
      assert values[..i] == values;
      SetAllWellFormed(headers, name.s, values);
      return Success(message);
    }

    method WithoutHeader(name: string) returns (m: Message)
      requires Valid()
      ensures fresh(m) && m.Valid()
      ensures m.headers == Unset(headers, name) && m.body == body && m.protocolVersion == protocolVersion
    {
      m := new Message.Clone(this);
      m.headers := Unset(m.headers, name);
      UnsetWellFormed(headers, name);
    }

    method WithBody(body: Stream) returns (m: Message)
      requires Valid()
      ensures fresh(m) && m.Valid()
      ensures m.body == body && m.headers == headers && m.protocolVersion == protocolVersion
    {
      m := new Message.Clone(this);
      m.body := body;
    }
  }
}
