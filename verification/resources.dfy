/** Option and Result values for the source's "return False / return {}"
    error paths and its caught exceptions. */
module Results {

  datatype Option<T> = None | Some(value: T)

  datatype Result<T, E> = Ok(value: T) | Err(error: E)
}

/** The fixed word lists of the analyzer: stopwords, the two sentiment
    lexicons and the five trait keyword lists, as one immutable value. */
module Resources {

  /** What `load_default_resources` builds, passed explicitly to each stage. */
  datatype Lexicon = Lexicon(stopwords: set<string>, positive: set<string>, negative: set<string>)

  /** The stopword list, one set per source line; the source names 我, 他,
      她 and 它 twice, which the union absorbs. */
  const DefaultStopwords: set<string> := Stopwords1 + Stopwords2 + Stopwords3 + Stopwords4 + Stopwords5

  const Stopwords1: set<string> := {"的", "了", "和", "是", "在", "有", "我", "他", "她", "它", "们"}
  const Stopwords2: set<string> := {"这", "那", "你", "我", "他", "她", "它", "我们", "你们", "他们"}
  const Stopwords3: set<string> := {"吗", "呢", "啊", "呀", "吧", "之", "乎", "者", "也", "而", "且"}
  const Stopwords4: set<string> := {"但是", "因为", "所以", "如果", "就", "都", "不", "很", "非常"}
  const Stopwords5: set<string> := {"可以", "能够", "应该", "必须", "就是", "一个", "这个", "那个"}

  const DefaultPositive: set<string> := {
    "好", "喜欢", "爱", "快乐", "高兴", "幸福", "优秀", "成功", "胜利",
    "坚强", "勇敢", "聪明", "善良", "美丽", "美好", "希望", "理想",
    "支持", "信任", "感谢", "谢谢", "太棒", "精彩", "伟大", "出色"
  }

  const DefaultNegative: set<string> := {
    "坏", "讨厌", "恨", "悲伤", "痛苦", "难过", "失败", "挫折", "困难",
    "生气", "愤怒", "失望", "绝望", "恐惧", "害怕", "担心", "焦虑",
    "拒绝", "反对", "怀疑", "背叛", "伤害", "危险", "可怕", "糟糕"
  }

  const Default: Lexicon := Lexicon(DefaultStopwords, DefaultPositive, DefaultNegative)

  /** The five personality dimensions the trait scorer reports. */
  datatype Trait = Extraversion | Neuroticism | Openness | Agreeableness | Conscientiousness

  /** The dictionary key the source uses for each trait. */
  function Name(t: Trait): string {
    match t
    case Extraversion => "外倾性"
    case Neuroticism => "神经质"
    case Openness => "开放性"
    case Agreeableness => "宜人性"
    case Conscientiousness => "责任心"
  }

  /** The insertion order of the `traits` dictionary, which is also the order
      `max` scans it in. */
  const DictOrder: seq<Trait> := [Extraversion, Neuroticism, Openness, Agreeableness, Conscientiousness]

  /** The order in which the summary appends its secondary sentences. */
  const SecondaryOrder: seq<Trait> := [Extraversion, Agreeableness, Conscientiousness, Openness, Neuroticism]

  /** The keyword list of each trait. */
  function Keywords(t: Trait): seq<string> {
    match t
    case Extraversion => ["朋友", "大家", "一起", "分享", "快乐", "交流", "热情", "聚会"]
    case Neuroticism => ["担心", "害怕", "焦虑", "紧张", "不安", "恐惧", "烦躁", "压力"]
    case Openness => ["新的", "想法", "创新", "探索", "好奇", "学习", "尝试", "发现"]
    case Agreeableness => ["帮助", "理解", "支持", "关心", "善良", "友好", "合作", "感谢"]
    case Conscientiousness => ["必须", "应该", "责任", "完成", "认真", "努力", "坚持", "承诺"]
  }

  predicate Distinct<T(==)>(s: seq<T>) {
    forall i, j :: 0 <= i < j < |s| ==> s[i] != s[j]
  }

  /** Both orders list every trait exactly once, and every name is different. */
  lemma OrdersArePermutations()
    ensures Distinct(DictOrder) && Distinct(SecondaryOrder)
    ensures forall t: Trait :: t in DictOrder && t in SecondaryOrder
    ensures forall t: Trait, u: Trait :: t != u ==> Name(t) != Name(u)
  {
    forall t: Trait ensures t in DictOrder && t in SecondaryOrder {
      match t
      case Extraversion => assert DictOrder[0] == t && SecondaryOrder[0] == t;
      case Neuroticism => assert DictOrder[1] == t && SecondaryOrder[4] == t;
      case Openness => assert DictOrder[2] == t && SecondaryOrder[3] == t;
      case Agreeableness => assert DictOrder[3] == t && SecondaryOrder[1] == t;
      case Conscientiousness => assert DictOrder[4] == t && SecondaryOrder[2] == t;
    }
    forall t: Trait, u: Trait | t != u ensures Name(t) != Name(u) {
      assert Name(t)[0] != Name(u)[0];
    }
  }

  /** No keyword is listed twice for a trait, so a trait's score counts each
      token of the corpus at most once. */
  lemma KeywordsDistinct(t: Trait)
    ensures Distinct(Keywords(t))
  {
    var ks := Keywords(t);
    forall i, j | 0 <= i < j < |ks| ensures ks[i] != ks[j] {
      assert ks[i][0] != ks[j][0];
    }
  }

  /** No default word is both positive and negative. */
  lemma DefaultLexiconDisjoint()
    ensures DefaultPositive !! DefaultNegative
  {
  }
}
