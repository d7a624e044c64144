/**
 * `tools/sprite_classifier.py`: sort extracted sprites into trees, bushes and
 * stumps by the size and shape of their opaque content, then name the copies
 * for the game's asset folders.
 */
module SpriteClassifier {
  import opened Wrappers
  import opened Pixels
  import opened Masks

  // ------------------------------------------------------------- analysis

  /** One PNG file as read: its name and its pixels. */
  datatype SpriteFile = SpriteFile(name: string, img: Image, h: nat, w: nat)

  /** What `analyze_sprite` reports: content width, height, opaque pixel count, `width / height` and the content box. */
  datatype Info = Info(name: string, width: nat, height: nat, area: nat, aspect: real, bbox: Box)

  /** `info` is the analysis of `f`: `None` exactly when no pixel has alpha above 10, else the tight box of those pixels and their count. */
  ghost predicate IsAnalysis(f: SpriteFile, info: Option<Info>)
    requires IsRect(f.img, f.h, f.w)
  {
    var op := OpaqueMask(f.img, f.h, f.w);
    if IsEmptyMask(op, f.h, f.w) then info.None?
    else
      && info.Some? && info.value.name == f.name
      && IsTightBox(op, f.h, f.w, info.value.bbox)
      && info.value.width == info.value.bbox.Width() && info.value.height == info.value.bbox.Height()
      && info.value.area == CountMask(op)
      && info.value.aspect == info.value.width as real / info.value.height as real
  }

  /**
   * `analyze_sprite`: the scan over every pixel with alpha above 10 keeps the
   * extreme coordinates and a count; no such pixel gives `None`. The content
   * is at least one pixel each way and fills at most its box.
   */
  method AnalyzeSprite(f: SpriteFile) returns (info: Option<Info>)
    requires IsRect(f.img, f.h, f.w)
    ensures IsAnalysis(f, info)
    ensures info.Some? ==> info.value.width >= 1 && info.value.height >= 1 && 1 <= info.value.area <= info.value.width * info.value.height
  {
    var op := OpaqueMask(f.img, f.h, f.w);
    var box, count := BoundingBox(op, f.h, f.w);
    if box.None? {
      return None;
    }
    var b := box.value;
    info := Some(Info(f.name, b.Width(), b.Height(), count, b.Width() as real / b.Height() as real, b));
  }

  // ------------------------------------------------------- classification

  datatype Category = Trees | Bushes | Stumps | Unknown

  const TreeMinArea := 3000
  const TreeMinHeight := 60
  const BushMaxHeight := 80
  const BushMinArea := 500
  const BushMinAspect: real := 0.6
  const StumpMaxHeight := 50
  const StumpMaxAspect: real := 0.8

  /** The first rule: small and narrow. */
  predicate IsStump(i: Info) { i.height < StumpMaxHeight && i.aspect < StumpMaxAspect && i.area < 2000 }

  /** The second rule: short, round and of moderate area. */
  predicate IsBush(i: Info) { i.height < BushMaxHeight && i.aspect > BushMinAspect && i.area > BushMinArea && i.area < TreeMinArea }

  /** The rules after the first two: large and tall, smaller but tall, small and round. */
  function LateRules(i: Info): Category {
    if i.area >= TreeMinArea && i.height >= TreeMinHeight then Trees
    else if i.height >= 50 && i.area >= 1500 then Trees
    else if i.aspect > 0.7 && i.area >= BushMinArea then Bushes
    else Unknown
  }

  /** `classify_sprite`: no analysis is unknown, otherwise the first rule that matches. */
  function Classify(info: Option<Info>): (c: Category)
    ensures info.None? ==> c == Unknown
    ensures info.Some? && IsStump(info.value) ==> c == Stumps
    ensures c == Stumps ==> info.Some? && IsStump(info.value)
  {
    match info
    case None => Unknown
    case Some(i) =>
      if IsStump(i) then Stumps
      else if IsBush(i) then Bushes
      else LateRules(i)
  }

  /** A short, round sprite of area 3000 or more is not a bush by the second rule: it falls through to the later ones. */
  lemma LargeRoundFallsThrough(i: Info)
    requires i.height < BushMaxHeight && i.aspect > BushMinAspect && i.area >= TreeMinArea
    ensures Classify(Some(i)) == LateRules(i)
  {
  }

  /** Trees are at least 50 tall with area at least 1500; every large, tall sprite is a tree. */
  lemma TreesAreTall(i: Info)
    ensures Classify(Some(i)) == Trees ==> i.height >= 50 && i.area >= 1500
    ensures i.area >= TreeMinArea && i.height >= TreeMinHeight ==> Classify(Some(i)) == Trees
  {
  }

  /** Bushes have area above 500 and are wider than 0.6 of their height. */
  lemma BushesAreRound(i: Info)
    ensures Classify(Some(i)) == Bushes ==> i.area >= BushMinArea && i.aspect > BushMinAspect
  {
  }

  /** A sprite of area below 500 is a stump or unknown. */
  lemma SmallSpritesAreStumpsOrUnknown(i: Info)
    requires i.area < BushMinArea
    ensures Classify(Some(i)) == Stumps || Classify(Some(i)) == Unknown
    ensures Classify(Some(i)) == Stumps <==> i.height < StumpMaxHeight && i.aspect < StumpMaxAspect
  {
  }

  // ------------------------------------------------------------ bookkeeping

  /** The infos of category `c`, in order. */
  function OfCategory(infos: seq<Info>, c: Category): (r: seq<Info>)
    ensures |r| <= |infos|
    ensures forall x :: x in r <==> x in infos && Classify(Some(x)) == c
  {
    if |infos| == 0 then []
    else OfCategory(infos[..|infos| - 1], c) + (if Classify(Some(infos[|infos| - 1])) == c then [infos[|infos| - 1]] else [])
  }

  /** Each analysed sprite goes to exactly one category: the four lists together are as long as the input. */
  lemma {:induction false} CategoriesPartition(infos: seq<Info>)
    ensures |OfCategory(infos, Trees)| + |OfCategory(infos, Bushes)| + |OfCategory(infos, Stumps)| + |OfCategory(infos, Unknown)| == |infos|
  {
    if |infos| > 0 {
      CategoriesPartition(infos[..|infos| - 1]);
    }
  }

  lemma OfCategoryAppend(infos: seq<Info>, x: Info, c: Category)
    ensures OfCategory(infos + [x], c) == OfCategory(infos, c) + (if Classify(Some(x)) == c then [x] else [])
  {
    assert (infos + [x])[..|infos|] == infos;
  }

  lemma PresentAppend(results: seq<Option<Info>>, r: Option<Info>)
    ensures Present(results + [r]) == Present(results) + (if r.Some? then [r.value] else [])
  {
    assert (results + [r])[..|results|] == results;
  }

  /** The analyses that are present, in file order. */
  function Present(results: seq<Option<Info>>): (r: seq<Info>)
    ensures |r| <= |results|
    ensures forall x :: x in r <==> Some(x) in results
  {
    if |results| == 0 then []
    else Present(results[..|results| - 1]) + (if results[|results| - 1].Some? then [results[|results| - 1].value] else [])
  }

  /** `self.categories`: one list per category. */
  datatype Lists = Lists(trees: seq<Info>, bushes: seq<Info>, stumps: seq<Info>, unknown: seq<Info>)
  {
    /** `self.categories[c]`. */
    function Get(c: Category): seq<Info> {
      match c
      case Trees => trees
      case Bushes => bushes
      case Stumps => stumps
      case Unknown => unknown
    }

    /** `self.categories[category].append(info)` for the category `info` is classified into. */
    function Append(info: Info): (l: Lists)
      ensures forall c :: l.Get(c) == Get(c) + (if c == Classify(Some(info)) then [info] else [])
    {
      match Classify(Some(info))
      case Trees => this.(trees := trees + [info])
      case Bushes => this.(bushes := bushes + [info])
      case Stumps => this.(stumps := stumps + [info])
      case Unknown => this.(unknown := unknown + [info])
    }
  }

  /** The lists after appending `infos` one by one. */
  function Extend(l: Lists, infos: seq<Info>): Lists {
    if |infos| == 0 then l else Extend(l, infos[..|infos| - 1]).Append(infos[|infos| - 1])
  }

  /** Extending appends to each list exactly the infos of its category, in order. */
  lemma {:induction false} ExtendGet(l: Lists, infos: seq<Info>, c: Category)
    ensures Extend(l, infos).Get(c) == l.Get(c) + OfCategory(infos, c)
  {
    if |infos| > 0 {
      ExtendGet(l, infos[..|infos| - 1], c);
    }
  }

  /** The analyses of the first `|results| + 1` files. */
  lemma AppendAnalysis(files: seq<SpriteFile>, results: seq<Option<Info>>, info: Option<Info>)
    requires |results| < |files| && forall k :: 0 <= k < |files| ==> IsRect(files[k].img, files[k].h, files[k].w)
    requires forall j :: 0 <= j < |results| ==> IsAnalysis(files[j], results[j])
    requires IsAnalysis(files[|results|], info)
    ensures forall j :: 0 <= j < |results| + 1 ==> IsAnalysis(files[j], (results + [info])[j])
  {
  }

  lemma ExtendAppend(l: Lists, infos: seq<Info>, x: Info)
    ensures Extend(l, infos + [x]) == Extend(l, infos).Append(x)
  {
    assert (infos + [x])[..|infos|] == infos;
  }

  class Classifier {
    var categories: Lists

    /** `self.categories`, all four lists empty. */
    constructor ()
      ensures categories == Lists([], [], [], [])
    {
      categories := Lists([], [], [], []);
    }

    function Items(c: Category): seq<Info>
      reads this
    {
      categories.Get(c)
    }

    /**
     * `process_directory` over the PNG files in name order: a file whose
     * analysis is `None` is left out; every other one is appended to the list
     * of its category.
     */
    method ProcessDirectory(files: seq<SpriteFile>) returns (ghost results: seq<Option<Info>>)
      requires forall k :: 0 <= k < |files| ==> IsRect(files[k].img, files[k].h, files[k].w)
      modifies this
      ensures |results| == |files|
      ensures forall k :: 0 <= k < |files| ==> IsAnalysis(files[k], results[k])
      ensures categories == Extend(old(categories), Present(results))
      ensures forall c :: Items(c) == old(Items(c)) + OfCategory(Present(results), c)
    {
      results := [];
      ghost var base := categories;
      for k := 0 to |files|
        invariant |results| == k
        invariant forall j :: 0 <= j < k ==> IsAnalysis(files[j], results[j])
        invariant categories == Extend(base, Present(results))
      {
        var info := AnalyzeSprite(files[k]);
        Record(info, base, results);
        AppendAnalysis(files, results, info);
        results := results + [info];
      }
      forall c ensures Items(c) == old(Items(c)) + OfCategory(Present(results), c) {
        ExtendGet(base, Present(results), c);
      }
    }

    /** One file of the loop: a present analysis is appended to its category's list. */
    method Record(info: Option<Info>, ghost base: Lists, ghost results: seq<Option<Info>>)
      requires categories == Extend(base, Present(results))
      modifies this
      ensures categories == Extend(base, Present(results + [info]))
    {
      PresentAppend(results, info);
      if info.Some? {
        ExtendAppend(base, Present(results), info.value);
        categories := categories.Append(info.value);
      } else {
        assert Present(results + [info]) == Present(results);
      }
    }

    /** `copy_to_game_assets`: copy trees, then bushes, then stumps, numbered per category; unknown sprites are not copied. */
    method CopyToGameAssets(prefix: string) returns (copies: seq<Copy>, counts: (nat, nat, nat))
      ensures copies == CopiesOf(Items(Trees), Trees, prefix) + CopiesOf(Items(Bushes), Bushes, prefix) + CopiesOf(Items(Stumps), Stumps, prefix)
      ensures counts == (|Items(Trees)|, |Items(Bushes)|, |Items(Stumps)|)
    {
      var t := CopyCategory(categories.trees, Trees, prefix);
      var b := CopyCategory(categories.bushes, Bushes, prefix);
      var s := CopyCategory(categories.stumps, Stumps, prefix);
      copies := t + b + s;
      counts := (|t|, |b|, |s|);
    }
  }

  // ------------------------------------------------------------- naming

  /** One `shutil.copy2`: the source file, the category folder and the new name. */
  datatype Copy = Copy(source: string, folder: Category, name: string)

  /** The category as a folder and dictionary key. */
  function CategoryName(c: Category): string {
    match c
    case Trees => "trees"
    case Bushes => "bushes"
    case Stumps => "stumps"
    case Unknown => "unknown"
  }

  /** `category[:-1]`: the name without its last letter ("tree", "bushe", "stump"). */
  function Stem(c: Category): (s: string)
    ensures |s| == |CategoryName(c)| - 1 && s == CategoryName(c)[..|CategoryName(c)| - 1]
  {
    var n := CategoryName(c);
    n[..|n| - 1]
  }

  function DigitChar(d: nat): (ch: char)
    requires d < 10
    ensures '0' <= ch <= '9' && DigitValue(ch) == d
  {
    ('0' as int + d) as char
  }

  function DigitValue(ch: char): nat {
    if '0' <= ch <= '9' then (ch as int - '0' as int) as nat else 0
  }

  /** Decimal digits of `n`, no leading zero. */
  function Digits(n: nat): (s: string)
    ensures |s| >= 1 && forall k :: 0 <= k < |s| ==> '0' <= s[k] <= '9'
    decreases n
  {
    if n < 10 then [DigitChar(n)] else Digits(n / 10) + [DigitChar(n % 10)]
  }

  /** `f"{i:02d}"`: at least two digits, padded with a zero. */
  function Pad2(i: nat): (s: string)
    ensures |s| >= 2
  {
    if i < 10 then "0" + Digits(i) else Digits(i)
  }

  /** The value of a decimal string. */
  function Value(s: string): nat {
    if |s| == 0 then 0 else Value(s[..|s| - 1]) * 10 + DigitValue(s[|s| - 1])
  }

  lemma {:induction false} ValueOfDigits(n: nat)
    ensures Value(Digits(n)) == n
    decreases n
  {
    if n >= 10 {
      var s := Digits(n / 10) + [DigitChar(n % 10)];
      assert s[..|s| - 1] == Digits(n / 10);
      ValueOfDigits(n / 10);
    }
  }

  lemma {:induction false} LeadingZero(s: string)
    ensures Value("0" + s) == Value(s)
  {
    if |s| > 0 {
      assert ("0" + s)[..|s|] == "0" + s[..|s| - 1];
      LeadingZero(s[..|s| - 1]);
    }
  }

  /** The two-digit index reads back as the index, so different indices give different names. */
  lemma Pad2RoundTrip(i: nat)
    ensures Value(Pad2(i)) == i
  {
    ValueOfDigits(i);
    if i < 10 {
      LeadingZero(Digits(i));
    }
  }

  /** `f"{prefix}{category[:-1]}_{i:02d}.png"`. */
  function CopyName(prefix: string, c: Category, i: nat): string {
    prefix + Stem(c) + "_" + Pad2(i) + ".png"
  }

  /** Item `i` of a category's list is copied under index `i`. */
  function CopiesOf(items: seq<Info>, c: Category, prefix: string): (r: seq<Copy>)
    ensures |r| == |items|
    ensures forall i :: 0 <= i < |r| ==> r[i] == Copy(items[i].name, c, CopyName(prefix, c, i))
  {
    seq(|items|, i requires 0 <= i < |items| => Copy(items[i].name, c, CopyName(prefix, c, i)))
  }

  /** The copies of one category, in list order. */
  method CopyCategory(items: seq<Info>, c: Category, prefix: string) returns (copies: seq<Copy>)
    ensures copies == CopiesOf(items, c, prefix)
  {
    copies := [];
    for i := 0 to |items|
      invariant |copies| == i
      invariant forall j :: 0 <= j < i ==> copies[j] == Copy(items[j].name, c, CopyName(prefix, c, j))
    {
      copies := copies + [Copy(items[i].name, c, CopyName(prefix, c, i))];
    }
  }

  /** Two copies into one folder under the same name have the same index. */
  lemma CopyNamesDistinct(prefix: string, c: Category, i: nat, j: nat)
    requires CopyName(prefix, c, i) == CopyName(prefix, c, j)
    ensures i == j
  {
    var head := prefix + Stem(c) + "_";
    var a, b := CopyName(prefix, c, i), CopyName(prefix, c, j);
    assert a == head + (Pad2(i) + ".png") && b == head + (Pad2(j) + ".png");
    assert |Pad2(i)| == |Pad2(j)|;
    assert Pad2(i) == a[|head|..|a| - 4] && Pad2(j) == b[|head|..|b| - 4];
    Pad2RoundTrip(i);
    Pad2RoundTrip(j);
  }

  /** No copy goes to the unknown folder. */
  lemma UnknownNotCopied(trees: seq<Info>, bushes: seq<Info>, stumps: seq<Info>, prefix: string)
    ensures forall x :: x in CopiesOf(trees, Trees, prefix) + CopiesOf(bushes, Bushes, prefix) + CopiesOf(stumps, Stumps, prefix) ==> x.folder != Unknown
  {
  }
}
