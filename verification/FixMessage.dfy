/** `FixMessage`: the field table with its lazily filled caches. */
module FixMessages {
  import opened Bytes
  import opened ParserTypes
  import opened FieldLists
  import opened Printer

  datatype FixMsgType =
    | HEARTBEAT | TEST_REQUEST | RESEND_REQUEST | REJECT | SEQUENCE_RESET | LOGOUT | LOGON
    | EXECUTION_REPORT | ORDER_CANCEL_REJECT | NEW_ORDER_SINGLE | ORDER_CANCEL_REQUEST
    | ORDER_CANCEL_REPLACE_REQUEST | ORDER_STATUS_REQUEST | MARKET_DATA_REQUEST | MARKET_DATA_SNAPSHOT
    | MARKET_DATA_INCREMENTAL_REFRESH | MARKET_DATA_REQUEST_REJECT | UNKNOWN

  /** `FixMsgTypeUtils::fromString` reads a C string: what follows a NUL byte is not seen. */
  function FromString(s: string): FixMsgType {
    if s == "" || (|s| > 1 && s[1] != '\0') then UNKNOWN
    else match s[0]
      case '0' => HEARTBEAT
      case '1' => TEST_REQUEST
      case '2' => RESEND_REQUEST
      case '3' => REJECT
      case '4' => SEQUENCE_RESET
      case '5' => LOGOUT
      case 'A' => LOGON
      case '8' => EXECUTION_REPORT
      case '9' => ORDER_CANCEL_REJECT
      case 'D' => NEW_ORDER_SINGLE
      case 'F' => ORDER_CANCEL_REQUEST
      case 'G' => ORDER_CANCEL_REPLACE_REQUEST
      case 'H' => ORDER_STATUS_REQUEST
      case 'V' => MARKET_DATA_REQUEST
      case 'W' => MARKET_DATA_SNAPSHOT
      case 'X' => MARKET_DATA_INCREMENTAL_REFRESH
      case 'Y' => MARKET_DATA_REQUEST_REJECT
      case _ => UNKNOWN
  }

  /** `FixMsgTypeUtils::toString`. */
  function TypeName(t: FixMsgType): string {
    match t
    case HEARTBEAT => "0"
    case TEST_REQUEST => "1"
    case RESEND_REQUEST => "2"
    case REJECT => "3"
    case SEQUENCE_RESET => "4"
    case LOGOUT => "5"
    case LOGON => "A"
    case EXECUTION_REPORT => "8"
    case ORDER_CANCEL_REJECT => "9"
    case NEW_ORDER_SINGLE => "D"
    case ORDER_CANCEL_REQUEST => "F"
    case ORDER_CANCEL_REPLACE_REQUEST => "G"
    case ORDER_STATUS_REQUEST => "H"
    case MARKET_DATA_REQUEST => "V"
    case MARKET_DATA_SNAPSHOT => "W"
    case MARKET_DATA_INCREMENTAL_REFRESH => "X"
    case MARKET_DATA_REQUEST_REJECT => "Y"
    case UNKNOWN => ""
  }

  /** The two tables are inverse to each other: every type is read back from its name, and a string
      without NUL bytes that reads as a known type is that type's name. */
  lemma TypeNamesInvert(t: FixMsgType, s: string)
    ensures FromString(TypeName(t)) == t
    ensures '\0' !in s && FromString(s) != UNKNOWN ==> s == TypeName(FromString(s))
  {
    if s != "" && |s| == 1 { assert s == [s[0]]; }
  }

  /** A fresh classification. */
  function Classify(fs: seq<Field>): FixMsgType {
    var m := MapOf(fs);
    if TAG_MSG_TYPE in m then FromString(m[TAG_MSG_TYPE]) else UNKNOWN
  }

  /** Some order in which a hash table holding `m` iterates: the table picks it, callers cannot. */
  method Rehash(m: FieldMap) returns (fs: seq<Field>)
    ensures Enumerates(fs, m)
  {
    hide Listed;
    fs := [];
    var rest := m;
    NothingListed(m);
    while rest.Keys != {}
      invariant Listed(fs, rest, m)
      decreases rest.Keys
    {
      Inhabited(rest.Keys);
      var k :| k in rest.Keys;
      ListOne(fs, rest, m, k);
      fs, rest := fs + [Field(k, rest[k])], rest - {k};
    }
    AllListed(fs, rest, m);
  }

  /** The listed fields and the rest make up `m`. */
  ghost predicate Listed(fs: seq<Field>, rest: FieldMap, m: FieldMap) {
    DistinctTags(fs) && MapOf(fs) + rest == m && MapOf(fs).Keys !! rest.Keys
  }

  lemma NothingListed(m: FieldMap)
    ensures Listed([], m, m)
  {
    MapOfNothing();
    assert map[] + m == m;
  }

  lemma ListOne(fs: seq<Field>, rest: FieldMap, m: FieldMap, k: int)
    requires Listed(fs, rest, m) && k in rest
    ensures Listed(fs + [Field(k, rest[k])], rest - {k}, m)
    ensures (rest - {k}).Keys == rest.Keys - {k}
  {
    hide MapOf, DistinctTags;
    MapOfSnoc(fs, Field(k, rest[k]));
    assert MapOf(fs)[k := rest[k]] + (rest - {k}) == MapOf(fs) + rest;
  }

  lemma AllListed(fs: seq<Field>, rest: FieldMap, m: FieldMap)
    requires Listed(fs, rest, m) && rest.Keys == {}
    ensures Enumerates(fs, m)
  {
    hide MapOf, DistinctTags;
    assert MapOf(fs) + rest == MapOf(fs);
  }

  lemma Inhabited(keys: set<int>)
    requires keys != {}
    ensures exists k: int :: k in keys
  {
    assert (forall k: int :: k !in keys) ==> keys == {};
  }

  /** A field with a new tag, appended. */
  lemma MapOfSnoc(fs: seq<Field>, f: Field)
    requires DistinctTags(fs) && f.tag !in MapOf(fs)
    ensures DistinctTags(fs + [f]) && MapOf(fs + [f]) == MapOf(fs)[f.tag := f.value]
  {
    forall i | 0 <= i < |fs| ensures fs[i].tag != f.tag { MapOfHas(fs, i); }
    SetAllConcat(map[], fs, [f]);
    SetOne(MapOf(fs), f);
  }

  lemma SetOne(m: FieldMap, f: Field)
    ensures SetAll(m, [f]) == m[f.tag := f.value]
  {
    assert [f][1..] == [];
  }

  lemma {:induction false} MapOfHas(fs: seq<Field>, i: nat)
    requires i < |fs| && DistinctTags(fs)
    ensures fs[i].tag in MapOf(fs)
    decreases |fs|
  {
    MapOfCons(fs);
    if i > 0 {
      assert fs[1..][i - 1] == fs[i];
      MapOfHas(fs[1..], i - 1);
    }
  }

  /** A stored type name is classified as its type, a name that is none and no name at all as UNKNOWN. */
  lemma ClassifyNamed(fs: seq<Field>, t: FixMsgType)
    ensures TAG_MSG_TYPE in MapOf(fs) && MapOf(fs)[TAG_MSG_TYPE] == TypeName(t) ==> Classify(fs) == t
    ensures TAG_MSG_TYPE !in MapOf(fs) ==> Classify(fs) == UNKNOWN
  {
    hide MapOf;
    TypeNamesInvert(t, "");
    hide FromString, TypeName;
  }

  class FixMessage {
    // The hash table, as the order in which it iterates.
    var fields: seq<Field>
    var cachedString: string
    var stringCacheValid: bool
    var cachedMsgType: FixMsgType
    var msgTypeCached: bool

    /** Holds in every reachable state: a valid cached string is a fresh print. */
    ghost predicate Valid()
      reads this
    {
      DistinctTags(fields) && (stringCacheValid ==> cachedString == Print(fields))
    }

    /** A cached type is a fresh classification.  Move assignment can break this. */
    ghost predicate TypeCoherent()
      reads this
    {
      msgTypeCached ==> cachedMsgType == Classify(fields)
    }

    function Fields(): FieldMap
      reads this
    {
      MapOf(fields)
    }

    constructor (m: FieldMap)
      ensures Valid() && TypeCoherent() && Fields() == m
    {
      var table := Rehash(m);
      fields := table;
      cachedString, stringCacheValid := "", false;
      cachedMsgType, msgTypeCached := UNKNOWN, false;
    }

    /** From a raw text: SendingTime is set first, then the text is read. */
    constructor FromText(raw: string, stamp: string)
      ensures Valid() && TypeCoherent() && Fields() == ParseFrom(map[TAG_SENDING_TIME := stamp], raw)
    {
      var table := Rehash(map[TAG_SENDING_TIME := stamp]);
      fields := table;
      cachedString, stringCacheValid := "", false;
      cachedMsgType, msgTypeCached := UNKNOWN, false;
      new;
      ParseNothing(map[TAG_SENDING_TIME := stamp]);
      if raw != "" { ParseFromString(raw); }
    }

    /** The copy constructor: the caches are not copied. */
    constructor Copy(other: FixMessage)
      requires other.Valid()
      ensures Valid() && TypeCoherent() && Fields() == other.Fields()
    {
      var table := Rehash(other.Fields());
      fields := table;
      cachedString, stringCacheValid := "", false;
      cachedMsgType, msgTypeCached := UNKNOWN, false;
    }

    /** The move constructor takes the string cache along; `left` is what the moved-from table holds. */
    constructor Move(other: FixMessage, left: seq<Field>)
      requires other.Valid() && DistinctTags(left)
      modifies other
      ensures Valid() && TypeCoherent() && fields == old(other.fields)
      ensures other.Valid() && other.TypeCoherent() && other.fields == left
    {
      fields := other.fields;
      cachedString, stringCacheValid := other.cachedString, other.stringCacheValid;
      cachedMsgType, msgTypeCached := UNKNOWN, false;
      new;
      other.fields := left;
      other.InvalidateCache();
    }

    method InvalidateCache()
      modifies this
      ensures fields == old(fields) && !stringCacheValid && !msgTypeCached
    {
      stringCacheValid := false;
      cachedString := "";
      msgTypeCached := false;
      cachedMsgType := UNKNOWN;
    }

    method SetField(tag: int, value: string)
      requires Valid()
      modifies this
      ensures Valid() && TypeCoherent() && Fields() == old(Fields())[tag := value]
    {
      fields := Rehash(Fields()[tag := value]);
      InvalidateCache();
    }

    /** The caches survive when there was nothing to remove. */
    method RemoveField(tag: int)
      requires Valid()
      modifies this
      ensures Valid() && Fields() == old(Fields()) - {tag}
      ensures old(TypeCoherent()) || tag in old(Fields()) ==> TypeCoherent()
    {
      MapOfExcept(fields, {tag});
      if tag in Fields() {
        fields := Except(fields, {tag});
        InvalidateCache();
      }
    }

    method ParseFromString(raw: string)
      requires Valid()
      modifies this
      ensures Valid() && TypeCoherent() && Fields() == ParseFrom(old(Fields()), raw)
    {
      var m := ParseText(Fields(), raw);
      fields := Rehash(m);
      InvalidateCache();
    }

    /** What is returned is always a fresh print. */
    method ToString() returns (s: string)
      requires Valid()
      modifies this`cachedString, this`stringCacheValid
      ensures Valid() && s == Print(fields)
      ensures old(TypeCoherent()) ==> TypeCoherent()
    {
      if stringCacheValid { return cachedString; }
      cachedString := PrintFresh(fields);
      stringCacheValid := true;
      s := cachedString;
    }

    /** What is returned is the right type exactly when the cache was coherent. */
    method GetMsgTypeEnum() returns (t: FixMsgType)
      requires Valid()
      modifies this`cachedMsgType, this`msgTypeCached
      ensures Valid() && (t == Classify(fields) <==> old(TypeCoherent()))
      ensures msgTypeCached && cachedMsgType == t && (old(msgTypeCached) ==> t == old(cachedMsgType))
      ensures old(TypeCoherent()) ==> TypeCoherent()
    {
      if msgTypeCached { return cachedMsgType; }
      cachedMsgType := Classify(fields);
      msgTypeCached := true;
      t := cachedMsgType;
    }

    method CopyAssign(other: FixMessage)
      requires Valid() && other.Valid()
      modifies this
      ensures Valid() && Fields() == old(other.Fields())
      ensures this != other ==> TypeCoherent()
    {
      if this != other {
        fields := Rehash(other.Fields());
        InvalidateCache();
      }
    }

    /** Move assignment carries the string cache but leaves this object's own type cache as it was:
        afterwards the type is right if and only if nothing was cached, or what was cached happens to
        be the type of the message moved in.  Assigning a message to itself does nothing. */
    method MoveAssign(other: FixMessage, left: seq<Field>)
      requires Valid() && other.Valid() && DistinctTags(left)
      modifies this, other
      ensures Valid() && other.Valid() && fields == old(other.fields)
      ensures msgTypeCached == old(msgTypeCached) && cachedMsgType == old(cachedMsgType)
      ensures TypeCoherent() <==> !old(msgTypeCached) || old(cachedMsgType) == old(Classify(other.fields))
      ensures other != this ==> other.TypeCoherent() && other.fields == left
    {
      if this == other { return; }
      fields := other.fields;
      cachedString, stringCacheValid := other.cachedString, other.stringCacheValid;
      other.fields := left;
      other.InvalidateCache();
    }
  }

  /** A run that ends with the wrong type: classify a Heartbeat, move a Logon into it, ask again. */
  method StaleType(a: FixMessage, b: FixMessage) returns (t: FixMsgType)
    requires a != b && a.Valid() && b.Valid()
    requires a.TypeCoherent() && Classify(a.fields) == HEARTBEAT && Classify(b.fields) == LOGON
    modifies a, b
    ensures Classify(a.fields) == LOGON && t == HEARTBEAT
  {
    hide Classify, Print;
    t := a.GetMsgTypeEnum();
    a.MoveAssign(b, []);
    t := a.GetMsgTypeEnum();
  }
}
