/** The Var Inspector identifies a variable by one `long` key that packs
    the variable's kind (the ordinal of `VarType`) into the high 32 bits and
    its id, read as unsigned, into the low 32 bits. Blacklists and highlight
    lists persist these keys as strings "ordinal:id". */
module VarKeys {
  import opened JavaLang

  /** The four kinds of variable, in declaration order. */
  datatype VarType = Varbit | Varp | VarcInt | VarcStr

  function Ordinal(t: VarType): (n: nat)
    ensures n < 4
  {
    match t
    case Varbit => 0
    case Varp => 1
    case VarcInt => 2
    case VarcStr => 3
  }

  /** The label shown for the kind (the enum's `name` field). */
  function TypeName(t: VarType): string {
    match t
    case Varbit => "Varbit"
    case Varp => "VarPlayer"
    case VarcInt => "VarClientInt"
    case VarcStr => "VarClientStr"
  }

  /** `((long) ordinal << 32) | (id & 0xFFFFFFFFL)`. The shifted ordinal has
      no bits below bit 32 and the masked id none above, so the `|` adds. */
  function Key(t: VarType, id: Int32): (k: Int64)
    ensures 0 <= k
    ensures k / TWO32 == Ordinal(t) && k % TWO32 == id % TWO32
  {
    Ordinal(t) * TWO32 + id % TWO32
  }

  /** `(int) (k >>> 32) + ":" + (k & 0xFFFFFFFFL)`: the unsigned shift is
      taken on the 64-bit two's-complement pattern of `k`. */
  function KeyToString(k: Int64): (s: string)
    ensures IndexOf(s, ':') > 0
  {
    var typeOrd := ToInt32((k % TWO64) / TWO32);
    var id := k % TWO32;
    var left := DecimalString(typeOrd);
    var s := left + ":" + DecimalString(id);
    assert s[|left|] == ':' && s[..|left|] == left;
    assert s[..|left| + 1] == left + ":";
    s
  }

  /** `stringToKey`: split at the first ':', which must exist and not be the
      first character, parse the left part with `Integer.parseInt` and the
      right part with `Long.parseLong`, and pack them as `key` does (the id's
      `& 0xFFFFFFFFL` keeps its low 32 bits). `None` stands for the
      `NumberFormatException`. */
  function StringToKey(s: string): (r: Option<Int64>)
    ensures IndexOf(s, ':') <= 0 ==> r.None?
    ensures r.Some? ==> exists c :: 0 < c < |s| && s[c] == ':' && ':' !in s[..c]
  {
    var colon := IndexOf(s, ':');
    if colon <= 0 then None
    else
      match ParseInt(s[..colon])
      case None => None
      case Some(typeOrd) =>
        match ParseLong(s[colon + 1..])
        case None => None
        case Some(id) => Some(ToInt64(typeOrd * TWO32) + id % TWO32)
  }

  /** The high word that `keyToString` prints is the key divided by 2^32, rounded down. */
  lemma {:induction false} HighWord(k: Int64)
    ensures ToInt32((k % TWO64) / TWO32) == k / TWO32
  {
    if k < 0 {
      assert k % TWO64 == k + TWO64;
      assert (k + TWO64) / TWO32 == k / TWO32 + TWO32;
    }
  }

  /** Every `long`, not only keys made by `key`, survives printing and parsing. */
  lemma {:induction false} KeyStringRoundTrip(k: Int64)
    ensures StringToKey(KeyToString(k)) == Some(k)
  {
    HighWord(k);
    var hi: Int32 := k / TWO32;
    var lo: Int64 := k % TWO32;
    var left, right := DecimalString(hi), DecimalString(lo);
    assert KeyToString(k) == left + ":" + right;
    ParseIntOfDecimal(hi);
    ParseLongOfDecimal(lo);
    SplitAtColon(left, right);
    assert StringToKey(KeyToString(k)) == Some(ToInt64(hi * TWO32) + lo % TWO32);
    assert ToInt64(hi * TWO32) == hi * TWO32;
    ModOfSmall(lo, TWO32);
    assert hi * TWO32 + lo == k;
  }

  /** `stringToKey` of "left:right" when `left` holds no colon. */
  lemma {:induction false} SplitAtColon(left: string, right: string)
    requires |left| > 0 && ':' !in left
    ensures StringToKey(left + ":" + right) ==
      match ParseInt(left)
      case None => None
      case Some(typeOrd) =>
        match ParseLong(right)
        case None => None
        case Some(id) => Some(ToInt64(typeOrd * TWO32) + id % TWO32)
  {
    var s := left + ":" + right;
    assert s[|left|] == ':';
    assert s[..|left|] == left;
    assert s[|left| + 1..] == right;
  }

  lemma {:induction false} KeyRoundTrip(t: VarType, id: Int32)
    ensures StringToKey(KeyToString(Key(t, id))) == Some(Key(t, id))
  {
    KeyStringRoundTrip(Key(t, id));
  }

  /** Distinct (kind, id) pairs get distinct keys. */
  lemma {:induction false} KeyInjective(t1: VarType, id1: Int32, t2: VarType, id2: Int32)
    ensures Key(t1, id1) == Key(t2, id2) <==> t1 == t2 && id1 == id2
  {
    if Key(t1, id1) == Key(t2, id2) {
      assert Ordinal(t1) == Ordinal(t2);
      assert id1 % TWO32 == id2 % TWO32;
      assert id1 % TWO32 == if id1 < 0 then id1 + TWO32 else id1;
      assert id2 % TWO32 == if id2 < 0 then id2 + TWO32 else id2;
    }
  }

  // ---------------------------------------------------------------------
  // Persistence of key sets (loadKeySet / saveKeySet)
  // ---------------------------------------------------------------------

  /** Parse every entry, or fail as soon as one entry fails. */
  function ParseAll(entries: seq<string>): (r: Option<seq<Int64>>)
    ensures r.Some? <==> forall i :: 0 <= i < |entries| ==> StringToKey(entries[i]).Some?
    ensures r.Some? ==> |r.value| == |entries|
    ensures r.Some? ==> forall i :: 0 <= i < |entries| ==> StringToKey(entries[i]) == Some(r.value[i])
  {
    if entries == [] then Some([])
    else
      match StringToKey(entries[0])
      case None => None
      case Some(k) =>
        match ParseAll(entries[1..])
        case None => None
        case Some(ks) => Some([k] + ks)
  }

  /** `loadKeySet` on the configuration already split into its CSV entries:
      a `NumberFormatException` from any entry makes the whole set empty. */
  function LoadKeySet(entries: seq<string>): (r: set<Int64>)
    ensures forall k :: k in r ==> exists i :: 0 <= i < |entries| && StringToKey(entries[i]) == Some(k)
  {
    match ParseAll(entries)
    case None => {}
    case Some(ks) => set i | 0 <= i < |ks| :: ks[i]
  }

  lemma {:induction false} LoadKeySetAllOrNothing(entries: seq<string>)
    ensures (exists i :: 0 <= i < |entries| && StringToKey(entries[i]).None?) ==> LoadKeySet(entries) == {}
    ensures (forall i :: 0 <= i < |entries| ==> StringToKey(entries[i]).Some?) ==>
      forall k :: k in LoadKeySet(entries) <==> exists i :: 0 <= i < |entries| && StringToKey(entries[i]) == Some(k)
  {
    match ParseAll(entries)
    case None =>
    case Some(ks) =>
      forall k ensures k in LoadKeySet(entries) <==> exists i :: 0 <= i < |entries| && StringToKey(entries[i]) == Some(k) {
        if k in LoadKeySet(entries) {
          var i :| 0 <= i < |ks| && ks[i] == k;
          assert StringToKey(entries[i]) == Some(k);
        }
      }
  }

  /** `saveKeySet`: `keyToString` of each key, in the order `ks` in which
      the set's iteration lists them (`new ArrayList<>(set)`). */
  function SaveKeySet(ks: seq<Int64>): (entries: seq<string>)
    ensures |entries| == |ks|
  {
    seq(|ks|, i requires 0 <= i < |ks| => KeyToString(ks[i]))
  }

  /** What `saveKeySet` writes, `loadKeySet` reads back as the same set. */
  lemma {:induction false} SaveLoadRoundTrip(ks: seq<Int64>)
    ensures LoadKeySet(SaveKeySet(ks)) == set i | 0 <= i < |ks| :: ks[i]
  {
    var entries := SaveKeySet(ks);
    forall i | 0 <= i < |entries| ensures StringToKey(entries[i]) == Some(ks[i]) {
      KeyStringRoundTrip(ks[i]);
    }
    ParseAllOf(entries, ks);
  }

  lemma {:induction false} ParseAllOf(entries: seq<string>, ks: seq<Int64>)
    requires |ks| == |entries|
    requires forall i :: 0 <= i < |entries| ==> StringToKey(entries[i]) == Some(ks[i])
    ensures ParseAll(entries) == Some(ks)
  {
    if entries != [] {
      var rest, tail := entries[1..], ks[1..];
      forall i | 0 <= i < |rest| ensures StringToKey(rest[i]) == Some(tail[i]) {
        assert rest[i] == entries[i + 1] && tail[i] == ks[i + 1];
      }
      ParseAllOf(rest, tail);
      assert StringToKey(entries[0]) == Some(ks[0]);
      assert ks == [ks[0]] + tail;
    }
  }
}
