/**
 * Gameplay tags and the 32-bit integer conventions shared by the whole model.
 *
 * A tag is a dot-separated name such as "Items.IDs.Rock"; the empty string
 * stands for the unset tag (FGameplayTag::EmptyTag), which is never valid.
 */
module Tags {

  type Tag = string

  const EmptyTag: Tag := ""

  const INT32_MAX: int := 0x7fff_ffff
  const INT32_MIN: int := -0x8000_0000

  predicate IsValid(t: Tag)
  {
    t != EmptyTag
  }

  /** `c` is the tag `t` itself or one of its descendants ("A.B" matches "A"). */
  predicate MatchesTag(c: Tag, t: Tag)
  {
    c == t || (|t| + 1 <= |c| && c[..|t| + 1] == t + ".")
  }

  /**
   * FGameplayTagContainer::HasTag: some tag of the container is `t` or a
   * child of `t`. The unset tag is never contained.
   */
  predicate HasTag(categories: seq<Tag>, t: Tag)
  {
    IsValid(t) && exists c :: c in categories && MatchesTag(c, t)
  }

  lemma HasTagOwnTag(categories: seq<Tag>, t: Tag)
    requires IsValid(t) && t in categories
    ensures HasTag(categories, t)
  {
  }

  lemma {:induction false} HasTagParent(categories: seq<Tag>, parent: Tag, child: string)
    requires IsValid(parent) && parent + "." + child in categories
    ensures HasTag(categories, parent)
  {
    var c := parent + "." + child;
    assert c[..|parent| + 1] == parent + ".";
    assert MatchesTag(c, parent);
  }

  function Min(a: int, b: int): (r: int)
    ensures r <= a && r <= b && (r == a || r == b)
  {
    if a < b then a else b
  }

  function Max(a: int, b: int): (r: int)
    ensures r >= a && r >= b && (r == a || r == b)
  {
    if a < b then b else a
  }

  /** C++ integer division by a positive divisor, which truncates toward zero (Dafny's `/` floors here). */
  function CDiv(a: int, b: int): (q: int)
    requires b > 0
    ensures a >= 0 ==> b * q <= a < b * (q + 1)
    ensures a < 0 ==> b * (q - 1) < a <= b * q
    ensures a >= 0 ==> q >= 0
  {
    if a >= 0 then a / b else -((-a) / b)
  }

  /** C++ `%` by a positive divisor: the remainder takes the sign of the dividend. */
  function CRem(a: int, b: int): (r: int)
    requires b > 0
    ensures a == CDiv(a, b) * b + r
    ensures a >= 0 ==> 0 <= r < b
    ensures a < 0 ==> -b < r <= 0
    ensures 0 <= a < b ==> r == a
  {
    CDivSmall(a, b);
    a - CDiv(a, b) * b
  }

  lemma CDivSmall(a: int, b: int)
    requires b > 0
    ensures 0 <= a < b ==> CDiv(a, b) == 0
  {
    if 0 <= a < b {
      var q := CDiv(a, b);
      if q >= 1 {
        MulMono(b, 1, q);
      } else if q <= -1 {
        MulMono(b, q + 1, 0);
      }
    }
  }

  function Abs(a: int): (r: nat)
    ensures r == a || r == -a
  {
    if a < 0 then -a else a
  }

  /** Ceiling of a / b for a positive divisor (FMath::CeilToInt of a float quotient). */
  function CeilDiv(a: int, b: int): (q: int)
    requires b > 0
    ensures b * (q - 1) < a <= b * q
  {
    -((-a) / b)
  }

  /** The ceiling is the only q with b(q-1) < a <= bq. */
  lemma CeilDivUnique(a: int, b: int, q: int)
    requires b > 0 && b * (q - 1) < a <= b * q
    ensures CeilDiv(a, b) == q
  {
    var k := CeilDiv(a, b);
    if k < q {
      MulMono(b, k, q - 1);
    } else if k > q {
      MulMono(b, q, k - 1);
    }
  }

  lemma ProductNonNegative(a: int, b: int)
    ensures a >= 0 && b >= 0 ==> a * b >= 0
  {
  }

  lemma MulMono(m: int, x: int, y: int)
    requires m >= 0 && x <= y
    ensures m * x <= m * y
  {
    assert m * y - m * x == m * (y - x);
  }

  /** Two's-complement wrap-around of a 32-bit signed integer result. */
  function Wrap32(x: int): (r: int)
    ensures INT32_MIN <= r <= INT32_MAX
    ensures (x - r) % 0x1_0000_0000 == 0
    ensures INT32_MIN <= x <= INT32_MAX ==> r == x
  {
    (x - INT32_MIN) % 0x1_0000_0000 + INT32_MIN
  }
}
