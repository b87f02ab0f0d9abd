/** Net::Message: a header and a body that push_back and extract change in
    place. Every method is tied to the function of Framing that says what it
    yields, so the round trips proved there hold of the object. */
module Messages {
  import opened Exceptions
  import opened Framing

  class Message<Id(==), Internal(==)> {
    /** m_header */
    var header: Header<Id, Internal>
    /** m_body */
    var body: seq<bv8>

    /** The message as a value. */
    function Value(): Msg<Id, Internal>
      reads this
    {
      Msg(header, body)
    }

    /** m_header.m_size is the body length, which fits in Header_size_type. */
    ghost predicate Valid()
      reads this
    {
      WellFormed(Value())
    }

    /** A message with an empty body. Message_header.h, which holds the
        default values of the header, is not part of this model, so the tags
        are given. */
    constructor (id: Id, internalId: Internal)
      ensures Valid()
      ensures header == Header(id, 0, internalId) && body == []
    {
      header := Header(id, 0, internalId);
      body := [];
    }

    /** push_back_buffer: appends `buffer`, or throws and leaves the message
        as it was. */
    method PushBackBuffer(buffer: seq<bv8>) returns (r: Outcome)
      requires Valid()
      modifies this
      ensures Valid()
      ensures (r, Value()) == PushBytes(old(Value()), buffer)
    {
      var size := |body|;
      var newSize := size + |buffer|;
      if newSize > MAX_SIZE {
        return Fail(LengthError);
      }
      // resize_body(newSize), then the copy to &m_body.at(size), which throws
      // when nothing was appended
      if newSize == size {
        return Fail(OutOfRange);
      }
      body := body + buffer;
      header := header.(size := CheckedCast(|body|, SIZE_FIELD_MODULUS).value);
      r := Pass;
    }

    /** push_back<T>: appends the bytes of `data`. */
    method PushBack<T>(codec: Codec<T>, data: T) returns (r: Outcome)
      requires Valid()
      modifies this
      ensures Valid()
      ensures (r, Value()) == PushValue(old(Value()), codec, data)
    {
      r := PushBackBuffer(codec.encode(data));
    }

    /** push_back<std::string>: the bytes, then their count as a Size_type. */
    method PushBackString(s: seq<bv8>) returns (r: Outcome)
      requires Valid()
      modifies this
      ensures Valid()
      ensures (r, Value()) == PushText(old(Value()), s)
    {
      r := PushBackBuffer(s);
      if r.Fail? {
        return;
      }
      r := PushBack(SizeCodec, |s| as Uint64);
    }

    /** extract_to_buffer: removes and returns the last `n` bytes, or throws
        and leaves the message as it was. */
    method ExtractToBuffer(n: nat) returns (r: Result<seq<bv8>>)
      requires Valid()
      modifies this
      ensures Valid()
      ensures (r, Value()) == ExtractBytes(old(Value()), n)
    {
      if n > |body| {
        return Err(LengthError);
      }
      var newSize := |body| - n;
      // the copy from &m_body.at(newSize) throws when nothing is taken
      if newSize == |body| {
        return Err(OutOfRange);
      }
      r := Ok(body[newSize..]);
      body := body[..newSize];
      header := header.(size := CheckedCast(|body|, SIZE_FIELD_MODULUS).value);
    }

    /** extract<T>: removes the last sizeof(T) bytes and reads them as a T. */
    method Extract<T>(codec: Codec<T>) returns (r: Result<T>)
      requires Valid()
      modifies this
      ensures Valid()
      ensures (r, Value()) == ExtractValue(old(Value()), codec)
    {
      var bytes := ExtractToBuffer(codec.width);
      r := if bytes.Ok? then Ok(codec.decode(bytes.value)) else Err(bytes.error);
    }

    /** extract<std::string>: the count first, then that many bytes. */
    method ExtractString() returns (r: Result<seq<bv8>>)
      requires Valid()
      modifies this
      ensures Valid()
      ensures (r, Value()) == ExtractText(old(Value()))
    {
      var length := Extract(SizeCodec);
      if length.Err? {
        return Err(length.error);
      }
      r := ExtractToBuffer(length.value);
    }

    /** operator==: equal headers and equal bodies. */
    function Equals(other: Message<Id, Internal>): (r: bool)
      reads this, other
      ensures r <==> Value() == other.Value()
    {
      header == other.header && body == other.body
    }

    /** operator!=: the negation of operator==. */
    function NotEquals(other: Message<Id, Internal>): (r: bool)
      reads this, other
      ensures r <==> Value() != other.Value()
    {
      !Equals(other)
    }

    /** get_internal_id */
    function GetInternalId(): Internal
      reads this
    {
      header.internalId
    }

    /** set_internal_id: changes the internal id and nothing else. */
    method SetInternalId(newInternalId: Internal)
      modifies this
      ensures GetInternalId() == newInternalId
      ensures header == old(header).(internalId := newInternalId) && body == old(body)
    {
      header := header.(internalId := newInternalId);
    }

    /** get_id */
    function GetId(): Id
      reads this
    {
      header.id
    }

    /** set_id: changes the message id and nothing else. */
    method SetId(newId: Id)
      modifies this
      ensures GetId() == newId
      ensures header == old(header).(id := newId) && body == old(body)
    {
      header := header.(id := newId);
    }

    /** clear: empties the body and zeroes m_size; the tags stay. */
    method Clear()
      modifies this
      ensures Valid()
      ensures body == [] && header == old(header).(size := 0)
    {
      body := [];
      header := header.(size := 0);
    }

    /** is_empty: the body is empty, which is to say m_size is zero. */
    function IsEmpty(): (r: bool)
      reads this
      requires Valid()
      ensures r <==> header.size == 0
    {
      body == []
    }

    /** body_size: the body length, which m_size records. */
    function BodySize(): (r: nat)
      reads this
      requires Valid()
      ensures r == header.size && r <= MAX_SIZE
    {
      |body|
    }
  }

  /** A sender pushes a non-empty string onto a fresh message; the receiver
      extracts a string from the same bytes and gets it back, and the message
      ends up as empty as it started. */
  method StringExchange<Id(==), Internal(==)>(id: Id, internalId: Internal, s: seq<bv8>)
      returns (pushed: Outcome, received: Result<seq<bv8>>, emptyAfter: bool)
    requires 0 < |s| && |s| + LENGTH_FIELD_WIDTH <= MAX_SIZE
    ensures pushed == Pass && received == Ok(s) && emptyAfter
  {
    var message := new Message(id, internalId);
    StringRoundTrip(message.Value(), s);
    pushed := message.PushBackString(s);
    received := message.ExtractString();
    emptyAfter := message.IsEmpty();
  }

  /** An empty string throws out_of_range and leaves the message empty: the
      length field is never pushed. */
  method EmptyStringExchange<Id(==), Internal(==)>(id: Id, internalId: Internal)
      returns (pushed: Outcome, emptyAfter: bool)
    ensures pushed == Fail(OutOfRange) && emptyAfter
  {
    var message := new Message(id, internalId);
    EmptyStringNotPushed(message.Value());
    pushed := message.PushBackString([]);
    emptyAfter := message.IsEmpty();
  }
}
