/** Optional members of a request body, and how get_value_from_json_key turns them into C++ values. */
module Json {

  datatype Option<+T> = None | Some(value: T)

  type int32 = x: int | -0x8000_0000 <= x < 0x8000_0000

  /** as_integer() stored in an unsigned int. */
  function ToUnsigned(x: int32): (u: nat)
    ensures u <= 0xffff_ffff && (u == x || u == x + 0x1_0000_0000)
  {
    if x >= 0 then x else x + 0x1_0000_0000
  }

  /** The unsigned value of a member; an absent or ill-typed one reads as 0. */
  function ReadUnsigned(o: Option<int32>): nat {
    if o.None? then 0 else ToUnsigned(o.value)
  }

  function Or<T>(o: Option<T>, default: T): T {
    if o.Some? then o.value else default
  }

  /** An element of a request's array; as_string() throws on one that is no text. */
  datatype Element = Text(text: string) | NotText

  function FirstNotText(es: seq<Element>): (n: nat)
    ensures n <= |es|
    ensures n < |es| ==> es[n].NotText?
    ensures forall k :: 0 <= k < n ==> es[k].Text?
  {
    if es == [] || es[0].NotText? then 0 else 1 + FirstNotText(es[1..])
  }

  /** The texts a loop over the array gets to see. */
  function Leading(es: seq<Element>): (ts: seq<string>)
    ensures |ts| == FirstNotText(es)
    ensures forall k :: 0 <= k < |ts| ==> es[k] == Text(ts[k])
  {
    seq(FirstNotText(es), k requires 0 <= k < FirstNotText(es) => es[k].text)
  }
}
