/**
 * The JSON document as the json-c object tree that the replay codec reads and
 * builds. The text layer (tokenising and pretty printing) is not part of this
 * model: an object is the ordered list of its members, as json-c keeps them.
 */
module Json {
  import opened Wrappers

  datatype Json =
    | Str(s: string)
    | Num(text: string)   // a number, with the text json-c renders for it
    | Bool(b: bool)
    | Null
    | Arr(elems: seq<Json>)
    | Obj(members: seq<(string, Json)>)

  /** The keys of an object, in member order; a non-object has none. */
  function Keys(v: Json): (ks: seq<string>)
  {
    if v.Obj? then seq(|v.members|, i requires 0 <= i < |v.members| => v.members[i].0) else []
  }

  /** First value stored under `key` in a list of members. */
  function Lookup(members: seq<(string, Json)>, key: string): (found: Option<Json>)
  {
    if members == [] then None
    else if members[0].0 == key then Some(members[0].1)
    else Lookup(members[1..], key)
  }

  /**
   * json_object_object_get_ex: the value of `key` in an object; a value that is
   * not an object has no members.
   */
  function Member(v: Json, key: string): (found: Option<Json>)
  {
    if v.Obj? then Lookup(v.members, key) else None
  }

  /**
   * A C string turned into a std::string: the text up to the first NUL
   * character. Both directions of the codec pass every string through a C
   * string (`c_str()` when writing, the `const char *` of json_object_get_string
   * when reading), so a NUL cuts the string short there.
   */
  function CString(s: string): (c: string)
    ensures '\0' !in c
  {
    if s == [] then []
    else if s[0] == '\0' then []
    else [s[0]] + CString(s[1..])
  }

  /** The C string is the prefix of `s` that ends just before its first NUL. */
  lemma {:induction false} CStringPrefix(s: string)
    ensures |CString(s)| <= |s| && CString(s) == s[..|CString(s)|]
    ensures |CString(s)| < |s| ==> s[|CString(s)|] == '\0'
  {
    if s != [] && s[0] != '\0' {
      CStringPrefix(s[1..]);
    }
  }

  /** A string is its own C string exactly when it has no NUL. */
  lemma {:induction false} CStringFixed(s: string)
    ensures CString(s) == s <==> '\0' !in s
  {
    if s != [] {
      CStringFixed(s[1..]);
      assert s == [s[0]] + s[1..];
    }
  }

  /** A C string of a concatenation stops in the first part when that has a NUL. */
  lemma {:induction false} CStringAppend(a: string, b: string)
    ensures CString(a + b) == if '\0' in a then CString(a) else a + CString(b)
  {
    if a != [] {
      assert (a + b)[1..] == a[1..] + b;
      CStringAppend(a[1..], b);
      if a[0] != '\0' {
        assert '\0' in a[1..] <==> '\0' in a;
      }
    } else {
      assert a + b == b;
    }
  }

  /**
   * json_object_get_string, as the std::string the decoder assigns it to: a
   * string yields its contents and a number its text, each up to the first NUL,
   * and a boolean "true"/"false". Null, arrays and objects are read as "".
   */
  function StringOf(v: Json): (s: string)
    ensures '\0' !in s
  {
    match v
    case Str(s) => CString(s)
    case Num(t) => CString(t)
    case Bool(b) => if b then "true" else "false"
    case _ => ""
  }

  /** The elements of an array, walked with json_object_array_length/_get_idx. */
  function ElementsOf(v: Option<Json>): (elems: seq<Json>)
  {
    if v.Some? && v.value.Arr? then v.value.elems else []
  }

  /** A key is found in a value exactly when it is one of the value's keys. */
  lemma {:induction false} KeysMember(v: Json, key: string)
    ensures key in Keys(v) <==> Member(v, key).Some?
    decreases if v.Obj? then |v.members| else 0
  {
    if v.Obj? && v.members != [] {
      var rest := Obj(v.members[1..]);
      KeysMember(rest, key);
      assert Keys(v) == [v.members[0].0] + Keys(rest);
    }
  }

  /** Lookup finds the first member with the key. */
  lemma {:induction false} LookupAt(members: seq<(string, Json)>, i: nat, key: string)
    requires i < |members| && members[i].0 == key
    requires forall j :: 0 <= j < i ==> members[j].0 != key
    ensures Lookup(members, key) == Some(members[i].1)
  {
    if i > 0 {
      LookupAt(members[1..], i - 1, key);
    }
  }

  /** Lookup finds nothing when no member has the key. */
  lemma {:induction false} LookupNone(members: seq<(string, Json)>, key: string)
    requires forall i :: 0 <= i < |members| ==> members[i].0 != key
    ensures Lookup(members, key) == None
  {
    if members != [] {
      LookupNone(members[1..], key);
    }
  }

  /** Lookup in a member list built by appending a known member after others. */
  lemma {:induction false} LookupAppend(front: seq<(string, Json)>, back: seq<(string, Json)>, key: string)
    requires forall i :: 0 <= i < |front| ==> front[i].0 != key
    ensures Lookup(front + back, key) == Lookup(back, key)
  {
    if front != [] {
      assert (front + back)[1..] == front[1..] + back;
      LookupAppend(front[1..], back, key);
    } else {
      assert front + back == back;
    }
  }
}
