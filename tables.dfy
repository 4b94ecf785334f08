/** The configuration tables shared by the PDF processor and the reviewer:
    Python dictionaries from a name to a list of strings, kept in insertion
    order. */
module Tables {

  /** One `key: [values...]` item of a dictionary. */
  datatype Entry = Entry(key: string, values: seq<string>)

  /** A dictionary in insertion order; its keys are distinct. */
  type Table = seq<Entry>

  predicate UniqueKeys(t: Table) {
    forall i, j | 0 <= i < j < |t| :: t[i].key != t[j].key
  }

  predicate HasKey(t: Table, k: string) {
    exists i | 0 <= i < |t| :: t[i].key == k
  }

  /** `t.get(k, [])`. */
  function Lookup(t: Table, k: string): (r: seq<string>)
    ensures HasKey(t, k) ==> exists i | 0 <= i < |t| :: t[i].key == k && r == t[i].values
    ensures !HasKey(t, k) ==> r == []
  {
    if t == [] then []
    else if t[0].key == k then t[0].values
    else Lookup(t[1..], k)
  }

  /** The translations table: lower-case English section key to its Chinese
      header variants. */
  const DefaultTranslations: Table := [
    Entry("abstract", ["中文摘要", "摘要", "概要", "要旨"]),
    Entry("introduction", ["引言", "简介", "导论"]),
    Entry("related work", ["相关工作", "相关研究", "文献回顾", "研究背景"]),
    Entry("methodology", ["方法", "研究方法"]),
    Entry("experiments", ["实验", "实验研究", "实验设计", "实验部分"]),
    Entry("results", ["结果", "研究成果", "实验结果", "结果分析"]),
    Entry("discussion", ["讨论", "结果讨论", "讨论部分", "讨论与分析"]),
    Entry("conclusion", ["结论", "研究结论", "结论部分", "总结"]),
    Entry("future work", ["未来工作", "后续工作", "未来研究方向", "未来研究计划"]),
    Entry("acknowledgments", ["致谢", "感谢", "致谢部分", "谢辞"]),
    Entry("references", ["参考文献", "参考书目", "文献引用", "引用文献"]),
    Entry("appendices", ["附录", "附表", "附加材料", "补充材料", "其他内容"])
  ]

  /** The chapters table: display name of a canonical section to the English
      header aliases that announce it. */
  const DefaultChapters: Table := [
    Entry("Abstract", ["abstract"]),
    Entry("Introduction", ["introduction", "intro"]),
    Entry("Related Work", ["related work", "literature review", "background", "prior art", "state of the art"]),
    Entry("Methodology", ["methodology", "methods", "approach", "algorithm", "framework", "model"]),
    Entry("Experiments", ["experiments", "experimental setup", "experimentation", "experimental study", "evaluation", "validation"]),
    Entry("Results", ["results", "findings", "outcomes", "data analysis"]),
    Entry("Discussion", ["discussion", "analysis", "discussion and analysis", "interpretation", "insights"]),
    Entry("Conclusion", ["conclusion", "concluding remarks", "summary", "final thoughts", "wrap-up"]),
    Entry("Future Work", ["future work", "directions for future research", "prospects"]),
    Entry("Acknowledgments", ["acknowledgments", "acknowledgements", "thanks"]),
    Entry("References", ["references", "bibliography", "works cited"]),
    Entry("Appendices", ["appendices", "appendix", "supplementary material", "additional information"])
  ]

  /** The reviewer's per-section length limits. */
  const MaxLengths: map<string, int> := map[
    "Abstract" := 512,
    "Introduction" := 1024,
    "Related Work" := 1024,
    "Methodology" := 1024,
    "Experiments" := 1024,
    "Results" := 1024,
    "Discussion" := 1024,
    "Conclusion" := 512,
    "Future Work" := 512,
    "Acknowledgments" := 256,
    "References" := 2048,
    "Appendices" := 1024
  ]

  /** The limit for sections the length table does not name. */
  const DefaultMaxLength: int := 1024
}
