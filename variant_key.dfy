/** The variant key of a product: H&M article codes end in a three-character
    colour suffix (etl_StarJeans.py:142-143). */
module VariantKey {

  /** `x[:-3]`: everything but the last three characters (empty when there are fewer). */
  function StyleId(id: string): (r: string)
    ensures |r| == if |id| >= 3 then |id| - 3 else 0
    ensures r <= id
  {
    if |id| >= 3 then id[..|id| - 3] else ""
  }

  /** `x[-3:]`: the last three characters (the whole key when it is shorter). */
  function ColorId(id: string): (r: string)
    ensures |r| == if |id| >= 3 then 3 else |id|
  {
    if |id| >= 3 then id[|id| - 3..] else id
  }

  /** The two parts put back together give the key, and the colour part is its
      last min(3, |id|) characters. */
  lemma KeyRejoins(id: string)
    ensures StyleId(id) + ColorId(id) == id
    ensures ColorId(id) == id[|id| - |ColorId(id)|..]
    ensures |ColorId(id)| == (if |id| < 3 then |id| else 3)
  {
  }

  /** Style and colour together identify the variant: distinct keys never share both parts. */
  lemma KeyPartsInjective(a: string, b: string)
    requires StyleId(a) == StyleId(b) && ColorId(a) == ColorId(b)
    ensures a == b
  {
    KeyRejoins(a);
    KeyRejoins(b);
  }
}
