/** The error catalog of FormsValidation: one message per constraint kind, in the
    declaration order of the `errorMessages` object. The three variants of the widget
    declare the same catalog word for word. */
module Catalog {

  /** The keys of the catalog. */
  datatype Kind = ValueMissing | PatternMismatch | TooShort | TooLong | PasswordMismatch

  /** `for…in` and `Object.entries` both enumerate the keys in declaration order. */
  const CatalogOrder: seq<Kind> := [ValueMissing, PatternMismatch, TooShort, TooLong, PasswordMismatch]

  /** The position of a kind in the catalog. */
  function Rank(k: Kind): (r: nat)
    ensures r < |CatalogOrder| && CatalogOrder[r] == k
  {
    match k
    case ValueMissing => 0
    case PatternMismatch => 1
    case TooShort => 2
    case TooLong => 3
    case PasswordMismatch => 4
  }

  /** A message as the catalog produces it: a fixed text (or the field's title), or a
      fixed prefix followed by the decimal form of a length limit. */
  datatype Message = Literal(text: string) | WithLimit(prefix: string, limit: int)
  {
    predicate NonEmpty() {
      match this
      case Literal(t) => t != ""
      case WithLimit(p, _) => p != ""
    }
  }

  const ValueMissingText := "Пожалуйста, заполните это поле"
  const PatternFallbackText := "Данные не соотвутствуют формату"
  const TooShortPrefix := "Слишком короткое значение, минимум символов - "
  const TooLongPrefix := "Слишком длинное значение, ограничение символов - "
  const PasswordMismatchText := "Пароли не совпадают"

  /** The catalog entry for `k`, applied to the field's title and length limits.
      `title || fallback` picks the fallback exactly when the title is the empty string. */
  function MessageFor(k: Kind, title: string, minLength: int, maxLength: int): (m: Message)
    ensures m.NonEmpty()
    ensures k == ValueMissing ==> m == Literal(ValueMissingText)
    ensures k == PatternMismatch && title != "" ==> m == Literal(title)
    ensures k == PatternMismatch && title == "" ==> m == Literal(PatternFallbackText)
    ensures k == TooShort ==> m == WithLimit(TooShortPrefix, minLength)
    ensures k == TooLong ==> m == WithLimit(TooLongPrefix, maxLength)
    ensures k == PasswordMismatch ==> m == Literal(PasswordMismatchText)
    ensures m.Literal? <==> k !in {TooShort, TooLong}
  {
    match k
    case ValueMissing => Literal(ValueMissingText)
    case PatternMismatch => Literal(if title != "" then title else PatternFallbackText)
    case TooShort => WithLimit(TooShortPrefix, minLength)
    case TooLong => WithLimit(TooLongPrefix, maxLength)
    case PasswordMismatch => Literal(PasswordMismatchText)
  }

  /** Only the patternMismatch entry reads the title and only the two length entries read
      a limit: the other entries are the same text for every field. */
  lemma MessageInputs(k: Kind, title: string, minLength: int, maxLength: int,
                      title': string, minLength': int, maxLength': int)
    ensures k != PatternMismatch && k != TooShort && k != TooLong ==>
      MessageFor(k, title, minLength, maxLength) == MessageFor(k, title', minLength', maxLength')
    ensures k == TooShort && minLength == minLength' ==>
      MessageFor(k, title, minLength, maxLength) == MessageFor(k, title', minLength', maxLength')
    ensures k == TooLong && maxLength == maxLength' ==>
      MessageFor(k, title, minLength, maxLength) == MessageFor(k, title', minLength', maxLength')
  {
  }

  /** The decimal digits of `n`, most significant first. */
  function Decimal(n: nat): (d: string)
    ensures |d| > 0
    decreases n
  {
    var digit := "0123456789"[n % 10];
    if n < 10 then [digit] else Decimal(n / 10) + [digit]
  }

  /** A message as the page shows it: the text, or the prefix followed by the limit as a
      template literal interpolates an integer (a minus sign for a negative one). */
  function Rendered(m: Message): (t: string)
    ensures m.WithLimit? ==> m.prefix <= t
  {
    match m
    case Literal(text) => text
    case WithLimit(prefix, limit) =>
      prefix + (if limit < 0 then "-" + Decimal(-limit) else Decimal(limit))
  }

  /** Different kinds show different strings, unless the field's title spells one of the
      fixed texts or starts like a length message. */
  lemma MessagesTellKindsApart(k1: Kind, k2: Kind, title: string, minLength: int, maxLength: int)
    requires title != ValueMissingText && title != PasswordMismatchText
    requires !(TooShortPrefix <= title) && !(TooLongPrefix <= title)
    requires k1 != k2
    ensures Rendered(MessageFor(k1, title, minLength, maxLength)) != Rendered(MessageFor(k2, title, minLength, maxLength))
  {
    assert TooShortPrefix[8] != TooLongPrefix[8];
  }

  /** The messages for a list of kinds, one per kind, in the same order. */
  function Messages(ks: seq<Kind>, title: string, minLength: int, maxLength: int): (ms: seq<Message>)
    decreases |ks|
  {
    if ks == [] then []
    else Messages(ks[..|ks| - 1], title, minLength, maxLength) + [MessageFor(ks[|ks| - 1], title, minLength, maxLength)]
  }

  /** Appending one kind appends its message. */
  lemma MessagesSnoc(ks: seq<Kind>, k: Kind, title: string, minLength: int, maxLength: int)
    ensures Messages(ks + [k], title, minLength, maxLength) == Messages(ks, title, minLength, maxLength) + [MessageFor(k, title, minLength, maxLength)]
  {
    assert (ks + [k])[..|ks|] == ks;
  }

  /** The kinds of `ks` that are in `truthy`, in the order of `ks`: what the catalog loop
      keeps when it pushes a message for every kind whose check holds. */
  function Collect(ks: seq<Kind>, truthy: set<Kind>): (r: seq<Kind>)
    decreases |ks|
  {
    if ks == [] then []
    else
      var last := ks[|ks| - 1];
      Collect(ks[..|ks| - 1], truthy) + (if last in truthy then [last] else [])
  }

  /** Looking at one more kind keeps it exactly when it is truthy. */
  lemma CollectSnoc(ks: seq<Kind>, k: Kind, truthy: set<Kind>)
    ensures k in truthy ==> Collect(ks + [k], truthy) == Collect(ks, truthy) + [k]
    ensures k !in truthy ==> Collect(ks + [k], truthy) == Collect(ks, truthy)
  {
    assert (ks + [k])[..|ks|] == ks;
    assert Collect(ks, truthy) + [] == Collect(ks, truthy);
  }

  /** Strictly increasing in catalog position: catalog order, each kind at most once. */
  ghost predicate StrictlyOrdered(ks: seq<Kind>) {
    forall i, j :: 0 <= i < j < |ks| ==> Rank(ks[i]) < Rank(ks[j])
  }

  lemma {:induction false} MessagesShape(ks: seq<Kind>, title: string, minLength: int, maxLength: int)
    ensures |Messages(ks, title, minLength, maxLength)| == |ks|
    ensures forall i :: 0 <= i < |ks| ==> Messages(ks, title, minLength, maxLength)[i] == MessageFor(ks[i], title, minLength, maxLength)
    decreases |ks|
  {
    if ks != [] {
      MessagesShape(ks[..|ks| - 1], title, minLength, maxLength);
    }
  }

  lemma {:induction false} CollectMembers(ks: seq<Kind>, truthy: set<Kind>, k: Kind)
    ensures k in Collect(ks, truthy) <==> k in ks && k in truthy
    decreases |ks|
  {
    if ks != [] {
      var init := ks[..|ks| - 1];
      CollectMembers(init, truthy, k);
      assert ks == init + [ks[|ks| - 1]];
    }
  }

  lemma {:induction false} CollectOrdered(ks: seq<Kind>, truthy: set<Kind>)
    requires StrictlyOrdered(ks)
    ensures StrictlyOrdered(Collect(ks, truthy))
    decreases |ks|
  {
    if ks != [] {
      var init := ks[..|ks| - 1];
      var last := ks[|ks| - 1];
      assert StrictlyOrdered(init) by {
        forall i, j | 0 <= i < j < |init| ensures Rank(init[i]) < Rank(init[j]) {
          assert init[i] == ks[i] && init[j] == ks[j];
        }
      }
      CollectOrdered(init, truthy);
      var front := Collect(init, truthy);
      if last in truthy {
        forall i | 0 <= i < |front| ensures Rank(front[i]) < Rank(last) {
          CollectMembers(init, truthy, front[i]);
          var p :| 0 <= p < |init| && init[p] == front[i];
          assert ks[p] == front[i];
        }
      }
    }
  }

  lemma OrderedInit(a: seq<Kind>)
    requires StrictlyOrdered(a) && a != []
    ensures StrictlyOrdered(a[..|a| - 1])
  {
    var ia := a[..|a| - 1];
    forall i, j | 0 <= i < j < |ia| ensures Rank(ia[i]) < Rank(ia[j]) {
      assert ia[i] == a[i] && ia[j] == a[j];
    }
  }

  /** In a catalog-ordered list the last kind has the highest rank, and every other kind
      is in the list without its last element. */
  lemma OrderedLast(a: seq<Kind>, k: Kind)
    requires StrictlyOrdered(a) && k in a
    ensures Rank(k) <= Rank(a[|a| - 1])
    ensures k != a[|a| - 1] ==> k in a[..|a| - 1] && Rank(k) < Rank(a[|a| - 1])
  {
    var i :| 0 <= i < |a| && a[i] == k;
    if i < |a| - 1 {
      assert a[..|a| - 1][i] == k;
    }
  }

  /** Two catalog-ordered lists with the same kinds are the same list. */
  lemma {:induction false} OrderedByMembers(a: seq<Kind>, b: seq<Kind>)
    requires StrictlyOrdered(a) && StrictlyOrdered(b)
    requires forall k :: k in a <==> k in b
    ensures a == b
    decreases |a| + |b|
  {
    if a != [] && b != [] {
      var la, lb := a[|a| - 1], b[|b| - 1];
      OrderedLast(b, la);
      OrderedLast(a, lb);
      assert la == lb;
      var ia, ib := a[..|a| - 1], b[..|b| - 1];
      OrderedInit(a);
      OrderedInit(b);
      forall k ensures k in ia <==> k in ib {
        if k in ia {
          InitNotLast(a, k);
          OrderedLast(b, k);
        }
        if k in ib {
          InitNotLast(b, k);
          OrderedLast(a, k);
        }
      }
      OrderedByMembers(ia, ib);
      assert a == ia + [la] && b == ib + [lb];
    } else {
      FirstIsMember(a);
      FirstIsMember(b);
    }
  }

  lemma FirstIsMember(a: seq<Kind>)
    ensures a != [] ==> a[0] in a
  {
  }

  /** A kind before the last position of a catalog-ordered list is not its last kind. */
  lemma InitNotLast(a: seq<Kind>, k: Kind)
    requires StrictlyOrdered(a) && a != [] && k in a[..|a| - 1]
    ensures k in a && k != a[|a| - 1]
  {
    var i :| 0 <= i < |a| - 1 && a[..|a| - 1][i] == k;
    assert a[i] == k;
  }

  /** What the catalog loop yields, characterised without the loop: exactly the truthy
      kinds, each once, in catalog order; and no other list has both properties. */
  lemma {:induction false} CatalogCollect(truthy: set<Kind>)
    ensures StrictlyOrdered(Collect(CatalogOrder, truthy))
    ensures forall k :: k in Collect(CatalogOrder, truthy) <==> k in truthy
    ensures forall ks :: StrictlyOrdered(ks) && (forall k :: k in ks <==> k in truthy) ==> ks == Collect(CatalogOrder, truthy)
  {
    assert StrictlyOrdered(CatalogOrder);
    CollectOrdered(CatalogOrder, truthy);
    forall k ensures k in Collect(CatalogOrder, truthy) <==> k in truthy {
      CollectMembers(CatalogOrder, truthy, k);
      assert CatalogOrder[Rank(k)] == k;
    }
    forall ks | StrictlyOrdered(ks) && (forall k :: k in ks <==> k in truthy) ensures ks == Collect(CatalogOrder, truthy) {
      OrderedByMembers(ks, Collect(CatalogOrder, truthy));
    }
  }
}
