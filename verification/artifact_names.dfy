/** The names under which the selection tool saves its two artifacts. The
    crop numbered n is saved as `Task_1_Cropped_<n>.jpeg` and the annotated
    copy as `Task_1_insights_<n>.jpeg`; `ParseName` reads a name back, which
    is what shows that no two artifacts ever share a name. */
module ArtifactNames {
  import opened Wrappers
  import opened Decimal

  const CropPrefix := "Task_1_Cropped_"
  const InsightsPrefix := "Task_1_insights_"
  const Extension := ".jpeg"

  datatype Kind = Cropped | Insights

  /** Which artifact a file holds, and the crop number it belongs to. */
  datatype ArtifactId = ArtifactId(kind: Kind, number: nat)

  function Prefix(k: Kind): string
  {
    match k
    case Cropped => CropPrefix
    case Insights => InsightsPrefix
  }

  /** The file an artifact is written to: its kind's prefix, the crop
      number in decimal, and the extension. */
  function NameOf(id: ArtifactId): string
  {
    Prefix(id.kind) + FromNat(id.number) + Extension
  }

  /** Every artifact name is its kind's prefix, then one or more decimal
      digits, then the extension. */
  lemma NameOfShape(id: ArtifactId)
    ensures var name := NameOf(id);
            && |name| > |Prefix(id.kind)| + |Extension|
            && name[..|Prefix(id.kind)|] == Prefix(id.kind)
            && name[|name| - |Extension|..] == Extension
            && AllDigits(name[|Prefix(id.kind)|..|NameOf(id)| - |Extension|])
  {
    var name := NameOf(id);
    assert name[..|Prefix(id.kind)|] == Prefix(id.kind);
    assert name[|Prefix(id.kind)|..|name| - |Extension|] == FromNat(id.number);
  }

  /** The crop's file name for crop `n`; it reads back as that crop. */
  function CropName(n: nat): (name: string)
  {
    NameOf(ArtifactId(Cropped, n))
  }

  /** The annotated copy's file name for crop `n`; it reads back as that
      copy. */
  function InsightsName(n: nat): (name: string)
  {
    NameOf(ArtifactId(Insights, n))
  }

  /** The number between `prefix` and the extension, if `name` has that
      shape. */
  function NumberAfter(name: string, prefix: string): Option<nat>
  {
    if |name| >= |prefix| + |Extension|
       && name[..|prefix|] == prefix
       && name[|name| - |Extension|..] == Extension
    then ParseNat(name[|prefix|..|name| - |Extension|])
    else None
  }

  /** Reads a file name back into the artifact it names. */
  function ParseName(name: string): Option<ArtifactId>
  {
    match NumberAfter(name, CropPrefix)
    case Some(n) => Some(ArtifactId(Cropped, n))
    case None =>
      match NumberAfter(name, InsightsPrefix)
      case Some(n) => Some(ArtifactId(Insights, n))
      case None => None
  }

  /** The crop's file name reads back as crop `n`, and as no annotated
      copy. */
  lemma CropNameReadsBack(n: nat)
    ensures ParseName(CropName(n)) == Some(ArtifactId(Cropped, n))
    ensures CropName(n) != InsightsName(n)
  {
    ParseNameOf(ArtifactId(Cropped, n));
    ParseNameOf(ArtifactId(Insights, n));
  }

  /** The annotated copy's file name reads back as the copy of crop `n`. */
  lemma InsightsNameReadsBack(n: nat)
    ensures ParseName(InsightsName(n)) == Some(ArtifactId(Insights, n))
  {
    ParseNameOf(ArtifactId(Insights, n));
  }

  lemma NumberAfterName(id: ArtifactId)
    ensures NumberAfter(NameOf(id), Prefix(id.kind)) == Some(id.number)
  {
    var p, d := Prefix(id.kind), FromNat(id.number);
    var s := NameOf(id);
    assert s[..|p|] == p;
    assert s[|s| - |Extension|..] == Extension;
    assert s[|p|..|s| - |Extension|] == d;
    ParseNatFromNat(id.number);
  }

  /** Every artifact name reads back as the artifact it was made for. */
  lemma ParseNameOf(id: ArtifactId)
    ensures ParseName(NameOf(id)) == Some(id)
  {
    NumberAfterName(id);
    if id.kind == Insights {
      var s := NameOf(id);
      assert s[7] == 'i';
      assert s[..|CropPrefix|] != CropPrefix by {
        assert s[..|CropPrefix|][7] != CropPrefix[7];
      }
    }
  }

  /** Two artifacts share a name only if they are the same artifact: a crop
      name is never an annotated-copy name, and distinct numbers give
      distinct names. */
  lemma NameOfInjective(a: ArtifactId, b: ArtifactId)
    ensures NameOf(a) == NameOf(b) <==> a == b
  {
    ParseNameOf(a);
    ParseNameOf(b);
  }

  /** The artifacts of the crops numbered `lo` up to but excluding `hi`, in
      the order they are written: each crop's image, then its annotated copy. */
  function IdsBetween(lo: nat, hi: nat): (ids: seq<ArtifactId>)
    ensures |ids| == if hi <= lo then 0 else 2 * (hi - lo)
    decreases hi - lo
  {
    if hi <= lo then []
    else [ArtifactId(Cropped, lo), ArtifactId(Insights, lo)] + IdsBetween(lo + 1, hi)
  }

  function NamesOf(ids: seq<ArtifactId>): (names: seq<string>)
    ensures |names| == |ids|
    ensures forall k :: 0 <= k < |ids| ==> names[k] == NameOf(ids[k])
  {
    seq(|ids|, k requires 0 <= k < |ids| => NameOf(ids[k]))
  }

  /** The names written by the crops numbered `lo` up to but excluding `hi`. */
  function NamesBetween(lo: nat, hi: nat): seq<string>
  {
    NamesOf(IdsBetween(lo, hi))
  }

  /** Position `k` of `IdsBetween(lo, hi)` is an artifact of crop
      `lo + k / 2`: its image at even positions, its annotated copy at odd
      ones. */
  lemma {:induction false} IdsBetweenAt(lo: nat, hi: nat, k: nat)
    requires k < |IdsBetween(lo, hi)|
    ensures IdsBetween(lo, hi)[k] == ArtifactId(if k % 2 == 0 then Cropped else Insights, lo + k / 2)
    decreases hi - lo
  {
    if k >= 2 {
      IdsBetweenAt(lo + 1, hi, k - 2);
      assert (k - 2) % 2 == k % 2 && lo + 1 + (k - 2) / 2 == lo + k / 2;
    }
  }

  /** No name is written twice by the crops numbered `lo` up to `hi`. */
  lemma NamesBetweenDistinct(lo: nat, hi: nat)
    ensures forall i, j :: 0 <= i < j < |NamesBetween(lo, hi)| ==>
              NamesBetween(lo, hi)[i] != NamesBetween(lo, hi)[j]
  {
    var ids := IdsBetween(lo, hi);
    forall i, j | 0 <= i < j < |ids|
      ensures NamesBetween(lo, hi)[i] != NamesBetween(lo, hi)[j]
    {
      IdsBetweenAt(lo, hi, i);
      IdsBetweenAt(lo, hi, j);
      NameOfInjective(ids[i], ids[j]);
    }
  }

  /** No crop number gives no names; one crop number gives its two. */
  lemma NamesBetweenSingle(n: nat)
    ensures NamesBetween(n, n) == []
    ensures NamesBetween(n, n + 1) == [CropName(n), InsightsName(n)]
  {
    assert IdsBetween(n, n + 1) == [ArtifactId(Cropped, n), ArtifactId(Insights, n)] + IdsBetween(n + 1, n + 1);
  }

  /** The artifacts of consecutive ranges of crops join up. */
  lemma {:induction false} IdsBetweenConcat(lo: nat, mid: nat, hi: nat)
    requires lo <= mid <= hi
    ensures IdsBetween(lo, mid) + IdsBetween(mid, hi) == IdsBetween(lo, hi)
    decreases mid - lo
  {
    if lo < mid {
      IdsBetweenConcat(lo + 1, mid, hi);
      var head := [ArtifactId(Cropped, lo), ArtifactId(Insights, lo)];
      assert (head + IdsBetween(lo + 1, mid)) + IdsBetween(mid, hi)
          == head + (IdsBetween(lo + 1, mid) + IdsBetween(mid, hi));
    }
  }

  lemma NamesOfConcat(a: seq<ArtifactId>, b: seq<ArtifactId>)
    ensures NamesOf(a + b) == NamesOf(a) + NamesOf(b)
  {
    var l, r := NamesOf(a + b), NamesOf(a) + NamesOf(b);
    forall k | 0 <= k < |l| ensures l[k] == r[k]
    {
      if k < |a| {
        assert (a + b)[k] == a[k];
      } else {
        assert (a + b)[k] == b[k - |a|];
      }
    }
  }

  /** The names of consecutive ranges of crops join up. */
  lemma NamesBetweenConcat(lo: nat, mid: nat, hi: nat)
    requires lo <= mid <= hi
    ensures NamesBetween(lo, mid) + NamesBetween(mid, hi) == NamesBetween(lo, hi)
  {
    IdsBetweenConcat(lo, mid, hi);
    NamesOfConcat(IdsBetween(lo, mid), IdsBetween(mid, hi));
  }
}
