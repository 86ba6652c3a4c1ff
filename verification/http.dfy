/**
 The captured request and the parts of the HTTP header types the console
 consumer reads: a header value's text view (`HeaderValue::to_str`) and lookup
 of a header by name (`HeaderMap::get`).
 */
module Http {
  import opened Text

  newtype byte = x: int | 0 <= x < 256

  type Bytes = seq<byte>

  datatype Option<T> = None | Some(value: T)

  /** One header occurrence; a header map is these in iteration order, duplicates included. */
  datatype Header = Header(name: string, value: Bytes)

  /** One captured exchange: method (`verb`), path, raw query without `?`, headers, raw body. */
  datatype Request = Request(verb: string, path: string, query: string, headers: seq<Header>, body: Bytes)

  /** Bytes a header value may hold and still have a text view: tab and the visible ASCII range. */
  predicate IsVisibleAscii(b: byte)
  {
    32 <= b < 127 || b == 9
  }

  /**
   A header value's text view: present exactly when every byte is visible
   ASCII (or tab), and then the same characters, one per byte.
   */
  function ValueToStr(v: Bytes): (r: Option<string>)
    ensures r.Some? <==> forall i :: 0 <= i < |v| ==> IsVisibleAscii(v[i])
    ensures r.Some? ==> |r.value| == |v| && forall i :: 0 <= i < |v| ==> r.value[i] as int == v[i] as int
  {
    if forall i :: 0 <= i < |v| ==> IsVisibleAscii(v[i]) then
      Some(seq(|v|, i requires 0 <= i < |v| => v[i] as int as char))
    else
      None
  }

  /** A header value's text view never contains a line break. */
  lemma ValueToStrSingleLine(v: Bytes)
    requires ValueToStr(v).Some?
    ensures '\n' !in ValueToStr(v).value && '\r' !in ValueToStr(v).value
  {
  }

  /** Characters a header value's text view may hold: tab and the visible ASCII range. */
  predicate IsVisibleChar(ch: char)
  {
    32 <= ch as int < 127 || ch == '\t'
  }

  /** The bytes of a text of visible characters, one byte per character. */
  function TextBytes(t: string): (v: Bytes)
    requires forall i :: 0 <= i < |t| ==> IsVisibleChar(t[i])
    ensures |v| == |t| && forall i :: 0 <= i < |t| ==> v[i] as int == t[i] as int
  {
    seq(|t|, i requires 0 <= i < |t| => assert IsVisibleChar(t[i]); t[i] as int as byte)
  }

  /** The text view, turned back into bytes, is the header value itself. */
  lemma ValueToStrRoundTrip(v: Bytes)
    requires ValueToStr(v).Some?
    ensures forall i :: 0 <= i < |ValueToStr(v).value| ==> IsVisibleChar(ValueToStr(v).value[i])
    ensures TextBytes(ValueToStr(v).value) == v
  {
    var t := ValueToStr(v).value;
    forall i | 0 <= i < |t|
      ensures IsVisibleChar(t[i])
    {
      assert IsVisibleAscii(v[i]);
    }
  }

  /** A text of visible characters, stored as a header value, has itself as its text view. */
  lemma TextBytesRoundTrip(t: string)
    requires forall i :: 0 <= i < |t| ==> IsVisibleChar(t[i])
    ensures ValueToStr(TextBytes(t)) == Some(t)
  {
    var v := TextBytes(t);
    assert forall i :: 0 <= i < |v| ==> IsVisibleAscii(v[i]);
    var r := ValueToStr(v).value;
    assert r == t by {
      assert |r| == |t|;
      forall i | 0 <= i < |t|
        ensures r[i] == t[i]
      {
        assert r[i] as int == v[i] as int == t[i] as int;
      }
    }
  }

  /** Header names compare without regard to ASCII case. */
  predicate SameName(a: string, b: string)
  {
    ToLowerAscii(a) == ToLowerAscii(b)
  }

  /** Position of the first header named `name`, or `|hs|` when there is none. */
  function FindHeader(hs: seq<Header>, name: string): (i: nat)
    ensures i <= |hs|
    ensures i < |hs| ==> SameName(hs[i].name, name)
    ensures forall j :: 0 <= j < i ==> !SameName(hs[j].name, name)
  {
    if |hs| == 0 then 0
    else if SameName(hs[0].name, name) then 0
    else 1 + FindHeader(hs[1..], name)
  }

  /** `HeaderMap::get`: the first value stored under `name`, if any. */
  function Get(hs: seq<Header>, name: string): (r: Option<Bytes>)
    ensures r.None? <==> forall j :: 0 <= j < |hs| ==> !SameName(hs[j].name, name)
    ensures r.Some? ==> exists j :: 0 <= j < |hs| && SameName(hs[j].name, name) && r.value == hs[j].value
                                  && forall k :: 0 <= k < j ==> !SameName(hs[k].name, name)
  {
    var i := FindHeader(hs, name);
    if i < |hs| then Some(hs[i].value) else None
  }

  /** Lookup is case-insensitive: names equal up to ASCII case find the same value. */
  lemma {:induction false} GetIgnoresCase(hs: seq<Header>, n1: string, n2: string)
    requires SameName(n1, n2)
    ensures Get(hs, n1) == Get(hs, n2)
  {
    FindHeaderIgnoresCase(hs, n1, n2);
  }

  lemma {:induction false} FindHeaderIgnoresCase(hs: seq<Header>, n1: string, n2: string)
    requires SameName(n1, n2)
    ensures FindHeader(hs, n1) == FindHeader(hs, n2)
  {
    if |hs| > 0 {
      FindHeaderIgnoresCase(hs[1..], n1, n2);
    }
  }

  /** The same headers with names that differ only in ASCII case. */
  predicate Renamed(hs1: seq<Header>, hs2: seq<Header>)
  {
    |hs1| == |hs2| &&
    forall i :: 0 <= i < |hs1| ==> SameName(hs1[i].name, hs2[i].name) && hs1[i].value == hs2[i].value
  }

  /** Lookup does not see the case in which the stored names are written. */
  lemma {:induction false} GetIgnoresStoredCase(hs1: seq<Header>, hs2: seq<Header>, name: string)
    requires Renamed(hs1, hs2)
    ensures Get(hs1, name) == Get(hs2, name)
  {
    FindHeaderIgnoresStoredCase(hs1, hs2, name);
  }

  lemma {:induction false} FindHeaderIgnoresStoredCase(hs1: seq<Header>, hs2: seq<Header>, name: string)
    requires Renamed(hs1, hs2)
    ensures FindHeader(hs1, name) == FindHeader(hs2, name)
  {
    if |hs1| > 0 {
      assert Renamed(hs1[1..], hs2[1..]) by {
        forall i | 0 <= i < |hs1| - 1
          ensures SameName(hs1[1..][i].name, hs2[1..][i].name) && hs1[1..][i].value == hs2[1..][i].value
        {
          assert hs1[1..][i] == hs1[i + 1] && hs2[1..][i] == hs2[i + 1];
        }
      }
      FindHeaderIgnoresStoredCase(hs1[1..], hs2[1..], name);
    }
  }

  /** `Content-Type` and `content-type` look up the same value. */
  lemma ContentTypeLookupIgnoresCase(hs: seq<Header>)
    ensures Get(hs, "Content-Type") == Get(hs, "content-type")
  {
    assert ToLowerAscii("Content-Type") == "content-type";
    GetIgnoresCase(hs, "Content-Type", "content-type");
  }
}
