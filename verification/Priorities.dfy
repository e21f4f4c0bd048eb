/** The order of priorities, shared by requirements and stories. */
module Priorities {
  function PriorityRank(p: string): nat {
    if p == "Low" then 0 else if p == "Medium" then 1 else if p == "High" then 2 else if p == "Critical" then 3 else 1
  }

  /** Low, Medium, High, Critical in this order; anything else stands with Medium. */
  lemma PriorityOrder(p: string)
    ensures PriorityRank("Low") < PriorityRank("Medium") < PriorityRank("High") < PriorityRank("Critical")
    ensures p !in {"Low", "Medium", "High", "Critical"} ==> PriorityRank(p) == PriorityRank("Medium")
  {
  }
}
