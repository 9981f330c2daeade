/** `Element`: a mutable key/value pair with a text form. */
module Elements {
  import opened Decimal

  /** What `toString` renders for key `k` and value `v`. */
  function ElementText(k: int, v: string): string {
    "(" + IntText(k) + " , " + v + ")"
  }

  /** The text begins with the key's digits right after the bracket, and
      the first blank follows them. */
  lemma ElementTextKey(k: int, v: string)
    ensures |ElementText(k, v)| == |IntText(k)| + |v| + 5
    ensures ElementText(k, v)[1..|IntText(k)| + 1] == IntText(k)
    ensures ElementText(k, v)[0] == '(' && ElementText(k, v)[|ElementText(k, v)| - 1] == ')'
    ensures ElementText(k, v)[|IntText(k)| + 1..|IntText(k)| + 4] == " , "
    ensures ElementText(k, v)[|IntText(k)| + 1] == ' '
    ensures ElementText(k, v)[|IntText(k)| + 4..|ElementText(k, v)| - 1] == v
    ensures forall i | 1 <= i < |IntText(k)| + 1 :: ElementText(k, v)[i] != ' '
  {
    var t := IntText(k);
    var s, n := ElementText(k, v), |t|;
    assert s == "(" + t + " , " + v + ")";
    assert s[1..n + 1] == t;
    assert s[n + 1..n + 4] == " , ";
    assert s[n + 4..|s| - 1] == v;
    forall i | 1 <= i < n + 1
      ensures s[i] != ' '
    {
      assert s[i] == t[i - 1];
      assert t[i - 1] == '-' || IsDigit(t[i - 1]);
    }
  }

  /** The text determines the element: a key never contains the blank that
      separates it from the value, so the split point is the first blank. */
  lemma ElementTextUnique(k1: int, v1: string, k2: int, v2: string)
    requires ElementText(k1, v1) == ElementText(k2, v2)
    ensures k1 == k2 && v1 == v2
  {
    var s := ElementText(k1, v1);
    var n1, n2 := |IntText(k1)|, |IntText(k2)|;
    ElementTextKey(k1, v1);
    ElementTextKey(k2, v2);
    assert s[n1 + 1] == ' ' && s[n2 + 1] == ' ';
    assert n1 == n2;
    assert IntText(k1) == s[1..n1 + 1] == IntText(k2);
    IntTextInjective(k1, k2);
  }

  class Element {
    var key: int
    var value: string

    /** `Element(k, v)`. */
    constructor (k: int, v: string)
      ensures key == k && value == v
    {
      key := k;
      value := v;
    }

    /** `getKey`: the number `toString` prints first. */
    function GetKey(): (k: int)
      reads this
      ensures |IntText(k)| + 1 <= |ToString()| && ToString()[1..|IntText(k)| + 1] == IntText(k)
    {
      key
    }

    method SetKey(k: int)
      modifies this
      ensures key == k && value == old(value)
    {
      key := k;
    }

    /** `getValue`: the text `toString` prints after the separator. */
    function GetValue(): (v: string)
      reads this
      ensures |IntText(key)| + 4 <= |ToString()| - 1 && ToString()[|IntText(key)| + 4..|ToString()| - 1] == v
    {
      value
    }

    method SetValue(v: string)
      modifies this
      ensures value == v && key == old(key)
    {
      value := v;
    }

    /** `toString`: the key's digits and the value between brackets,
        separated by ` , `; distinct elements have distinct texts. */
    function ToString(): (s: string)
      reads this
      ensures var n := |IntText(key)|;
              |s| == n + |value| + 5 && s[0] == '(' && s[1..n + 1] == IntText(key) &&
              s[n + 1..n + 4] == " , " && s[n + 4..|s| - 1] == value && s[|s| - 1] == ')'
      ensures forall k, v | ElementText(k, v) == s :: k == key && v == value
    {
      var s := ElementText(key, value);
      ElementTextKey(key, value);
      forall k, v | ElementText(k, v) == s
        ensures k == key && v == value
      {
        ElementTextUnique(k, v, key, value);
      }
      s
    }
  }
}
