/** The rule catalog: a fixed, ordered table of weighted heuristics. */
module Rules {

  /** One heuristic. The source declares it as a frozen record, so it is a value here. */
  datatype Rule = Rule(
    id: string,
    name: string,
    description: string,
    weight: int,
    tags: seq<string>,
    patterns: seq<string>)

  predicate NoDuplicates<T(==)>(s: seq<T>) {
    forall i, j :: 0 <= i < j < |s| ==> s[i] != s[j]
  }

  /** What every catalog entry satisfies: positive weight, tags without repeats, at least one pattern. */
  predicate WellFormed(r: Rule) {
    && r.weight > 0
    && |r.tags| > 0
    && NoDuplicates(r.tags)
    && |r.patterns| > 0
  }

  /** No two rules of the catalog share an id. */
  predicate DistinctIds(rules: seq<Rule>) {
    forall i, j :: 0 <= i < j < |rules| ==> rules[i].id != rules[j].id
  }

  /** The catalog, in the order the engine walks it and reports matches. */
  function GetRules(): (rules: seq<Rule>)
    ensures |rules| == 12
    ensures forall i :: 0 <= i < |rules| ==> WellFormed(rules[i])
  {
    [
      Rule("override-system", "系统指令覆盖", "试图忽略或覆盖系统/开发者指令。", 25,
        ["injection", "override"],
        ["ignore\\s+(all|previous|earlier)\\s+instructions", "忽略.*指令",
         "forget\\s+the\\s+system\\s+prompt", "override\\s+the\\s+system"]),
      Rule("reveal-system", "系统提示泄露", "试图获取系统提示或隐藏规则。", 22,
        ["exfiltration", "system"],
        ["reveal\\s+the\\s+system\\s+prompt", "show\\s+me\\s+the\\s+system\\s+message",
         "你的系统提示是什么", "内部指令"]),
      Rule("policy-evasion", "政策规避", "请求绕过限制或提供被禁止内容。", 20,
        ["evasion"],
        ["bypass\\s+policy", "without\\s+restrictions", "no\\s+rules\\s+apply", "绕过.*限制"]),
      Rule("roleplay-dan", "角色扮演越狱", "使用 DAN/开发者模式等角色扮演引导越狱。", 18,
        ["jailbreak"],
        ["DAN\\b", "developer\\s+mode", "do\\s+anything\\s+now", "越狱模式"]),
      Rule("prompt-injection", "提示注入", "试图插入新的指令覆盖上下文。", 18,
        ["injection"],
        ["\\[\\s*system\\s*\\]", "\\[\\s*developer\\s*\\]", "new\\s+instructions", "这里有新的指令"]),
      Rule("tool-abuse", "工具滥用", "试图滥用工具/插件执行危险操作。", 16,
        ["tooling"],
        ["use\\s+the\\s+tool\\s+to", "call\\s+the\\s+plugin", "run\\s+shell\\s+command", "执行\\s*命令"]),
      Rule("data-exfiltration", "数据外泄", "试图获取密钥、凭据或敏感数据。", 20,
        ["exfiltration"],
        ["api\\s*key", "secret\\s+token", "password", "/etc/passwd", "数据库凭据"]),
      Rule("chain-of-thought", "推理过程诱导", "要求暴露详细推理过程或隐藏 reasoning。", 12,
        ["exfiltration", "policy"],
        ["show\\s+your\\s+chain\\s+of\\s+thought", "reveal\\s+your\\s+reasoning", "把你的思考过程写出来"]),
      Rule("stealth-instruction", "隐蔽指令", "使用分隔符或编码隐藏攻击指令。", 14,
        ["injection"],
        ["```.*instruction.*```", "base64", "\\bencode\\b", "隐藏指令"]),
      Rule("social-engineering", "社会工程", "利用紧急/权威等话术诱导越权。", 10,
        ["social"],
        ["urgent", "as\\s+your\\s+admin", "紧急", "我是你的管理员"]),
      Rule("scope-escape", "任务边界逃逸", "要求改变任务或访问无关系统。", 12,
        ["override"],
        ["switch\\s+tasks", "ignore\\s+the\\s+user\\s+request", "不再回答用户问题"]),
      Rule("multi-step-exploit", "多步攻击引导", "请求分步执行潜在攻击链。", 15,
        ["jailbreak"],
        ["step\\s+by\\s+step\\s+exploit", "一步一步入侵", "逐步越狱"])
    ]
  }

  /** No two rules of the catalog share an id. */
  lemma CatalogIdsDistinct()
    ensures DistinctIds(GetRules())
  {
  }

  /** The weights of `rules`, in order. */
  function Weights(rules: seq<Rule>): (ws: seq<int>)
    ensures |ws| == |rules|
    ensures forall i :: 0 <= i < |rules| ==> ws[i] == rules[i].weight
  {
    seq(|rules|, i requires 0 <= i < |rules| => rules[i].weight)
  }

  /** The sum of `xs`. */
  function Sum(xs: seq<int>): int
    decreases |xs|
  {
    if xs == [] then 0 else Sum(xs[..|xs| - 1]) + xs[|xs| - 1]
  }

  /** The sum of the weights of `rules`: the base score when every rule fires. */
  function TotalWeight(rules: seq<Rule>): int {
    Sum(Weights(rules))
  }

  /** The tag lists of `rules`, in order. */
  function TagLists(rules: seq<Rule>): (tls: seq<seq<string>>)
    ensures |tls| == |rules|
    ensures forall i :: 0 <= i < |rules| ==> tls[i] == rules[i].tags
  {
    seq(|rules|, i requires 0 <= i < |rules| => rules[i].tags)
  }

  /** Every tag of some list in `tls`. */
  function Union(tls: seq<seq<string>>): set<string> {
    set i, t | 0 <= i < |tls| && t in tls[i] :: t
  }

  /** Every tag that some rule of `rules` carries. */
  function AllTags(rules: seq<Rule>): (tags: set<string>)
    ensures forall t :: t in tags <==> exists i :: 0 <= i < |rules| && t in rules[i].tags
  {
    Union(TagLists(rules))
  }

  /** The catalog's weights are 25, 22, 20, 18, 18, 16, 20, 12, 14, 10, 12 and 15, summing to 202:
      a text that fires every rule scores far above the clamp of 100. */
  lemma CatalogWeights()
    ensures Weights(GetRules()) == [25, 22, 20, 18, 18, 16, 20, 12, 14, 10, 12, 15]
    ensures TotalWeight(GetRules()) == 202
  {
    var w := Weights(GetRules());
    assert w == [25, 22, 20, 18, 18, 16, 20, 12, 14, 10, 12, 15];
    SumOfCatalogWeights(w);
  }

  lemma SumOfCatalogWeights(w: seq<int>)
    requires w == [25, 22, 20, 18, 18, 16, 20, 12, 14, 10, 12, 15]
    ensures Sum(w) == 202
  {
    forall k | 1 <= k <= 12 ensures w[..k][..k - 1] == w[..k - 1] { }
    assert Sum(w[..1]) == 25;
    assert Sum(w[..2]) == 47;
    assert Sum(w[..3]) == 67;
    assert Sum(w[..4]) == 85;
    assert Sum(w[..5]) == 103;
    assert Sum(w[..6]) == 119;
    assert Sum(w[..7]) == 139;
    assert Sum(w[..8]) == 151;
    assert Sum(w[..9]) == 165;
    assert Sum(w[..10]) == 175;
    assert Sum(w[..11]) == 187;
    assert w[..12] == w;
  }

  /** The nine tags of the catalog. */
  const CatalogTagSet: set<string> :=
    {"injection", "override", "exfiltration", "system", "evasion", "jailbreak", "tooling", "policy", "social"}

  /** The tag lists of the catalog, rule by rule. */
  const CatalogTagLists: seq<seq<string>> :=
    [["injection", "override"], ["exfiltration", "system"], ["evasion"], ["jailbreak"],
     ["injection"], ["tooling"], ["exfiltration"], ["exfiltration", "policy"], ["injection"],
     ["social"], ["override"], ["jailbreak"]]

  /** The catalog's rules carry exactly nine distinct tags. */
  lemma CatalogTags()
    ensures TagLists(GetRules()) == CatalogTagLists
    ensures AllTags(GetRules()) == CatalogTagSet
    ensures |AllTags(GetRules())| == 9
  {
    CatalogTagSetSize();
    CatalogTagListsAre();
    CatalogUnionWithin(CatalogTagLists);
    CatalogUnionCovers(CatalogTagLists);
  }

  lemma CatalogTagSetSize()
    ensures |CatalogTagSet| == 9
  {
  }

  lemma CatalogTagListsAre()
    ensures TagLists(GetRules()) == CatalogTagLists
  {
  }

  lemma CatalogUnionWithin(tls: seq<seq<string>>)
    requires tls == CatalogTagLists
    ensures Union(tls) <= CatalogTagSet
  {
    forall t | t in Union(tls) ensures t in CatalogTagSet {
      var i :| 0 <= i < |tls| && t in tls[i];
    }
  }

  lemma CatalogUnionCovers(tls: seq<seq<string>>)
    requires tls == CatalogTagLists
    ensures CatalogTagSet <= Union(tls)
  {
    InUnion(tls, 0, 0);
    InUnion(tls, 0, 1);
    InUnion(tls, 1, 0);
    InUnion(tls, 1, 1);
    InUnion(tls, 2, 0);
    InUnion(tls, 3, 0);
    InUnion(tls, 5, 0);
    InUnion(tls, 7, 1);
    InUnion(tls, 9, 0);
  }

  lemma InUnion(tls: seq<seq<string>>, i: nat, k: nat)
    requires i < |tls| && k < |tls[i]|
    ensures tls[i][k] in Union(tls)
  {
    assert tls[i][k] in tls[i];
  }

}
