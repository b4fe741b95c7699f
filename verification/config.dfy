/** The credential pair of `src/config.py` and the way it is shown in logs. */
module Config {
  import opened Types

  /** An `id`/`key` pair read from one section of the configuration. */
  datatype IdKeyPair = IdKeyPair(id: Option<string>, key: Option<string>)

  /** `IdKeyPair.mask(value)`: first two characters, four stars, last two characters
      for a value longer than four; four stars otherwise. */
  function MaskValue(value: Option<string>): (r: string)
    ensures value.None? || |value.value| <= 4 ==> r == "****"
    ensures value.Some? && |value.value| > 4 ==>
      && |r| == 8
      && r[..2] == value.value[..2]
      && r[2..6] == "****"
      && r[6..] == value.value[|value.value| - 2..]
  {
    if value.Some? && value.value != "" && |value.value| > 4 then
      value.value[..2] + "****" + value.value[|value.value| - 2..]
    else "****"
  }

  /** The middle of a long value never shows: values that agree on their first two
      and last two characters mask to the same text. */
  lemma MaskHidesMiddle(v: string, w: string)
    requires |v| > 4 && |w| > 4
    requires v[..2] == w[..2] && v[|v| - 2..] == w[|w| - 2..]
    ensures MaskValue(Some(v)) == MaskValue(Some(w))
  {
  }

  /** A dictionary lookup with Python's `dic.get(k)`: absent keys give `None`. */
  function Get(dic: map<string, string>, k: string): (r: Option<string>)
    ensures r.Some? <==> k in dic
    ensures r.Some? ==> r.value == dic[k]
  {
    if k in dic then Some(dic[k]) else None
  }

  /** `IdKeyPair(dic)`: `id` and `key` taken from the dictionary, `None` when missing. */
  function FromDict(dic: map<string, string>): (p: IdKeyPair)
    ensures p.id.Some? <==> "id" in dic
    ensures p.key.Some? <==> "key" in dic
    ensures "id" in dic ==> p.id.value == dic["id"]
    ensures "key" in dic ==> p.key.value == dic["key"]
  {
    IdKeyPair(Get(dic, "id"), Get(dic, "key"))
  }

  /** A section missing from the configuration becomes `{}`, hence a pair of `None`s. */
  lemma EmptySectionHasNoCredentials()
    ensures FromDict(map[]) == IdKeyPair(None, None)
  {
  }
}
