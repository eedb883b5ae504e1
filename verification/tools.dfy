/** Tool status helpers: the friendly label table, the per-tool detail string and the status message text. */
module Tools {
  import Html

  /** `STATUS_THROTTLE_SECS`: minimum spacing between two delivered status messages. */
  const ThrottleSecs: nat := 8

  /** `MAX_DETAIL_LEN`. */
  const MaxDetailLen: nat := 120

  /** The ellipsis `…` appended to a truncated detail. */
  const Ellipsis: char := '\U{2026}'

  /** `_TOOL_LABELS`. */
  const Labels: map<string, string> := map[
    "Bash" := "Running command",
    "Read" := "Reading file",
    "Write" := "Writing file",
    "Edit" := "Editing file",
    "Glob" := "Searching files",
    "Grep" := "Searching code",
    "WebFetch" := "Fetching web page",
    "WebSearch" := "Searching the web",
    "Task" := "Running sub-task"
  ]

  /** `_TOOL_LABELS.get(tool_name, f"Using {tool_name}")`. No table label starts with "Using ", so a label tells
      whether the tool was known. */
  function Label(name: string): (r: string)
    ensures |r| > 0
    ensures name in Labels ==> r == Labels[name]
    ensures "Using " <= r <==> name !in Labels
  {
    if name in Labels then
      assert Labels[name][0] != 'U' by {
        assert name in {"Bash", "Read", "Write", "Edit", "Glob", "Grep", "WebFetch", "WebSearch", "Task"};
      }
      Labels[name]
    else "Using " + name
  }

  /** The tools `_tool_detail` has a rule for. */
  predicate HasDetailRule(name: string) {
    name in {"Bash", "Read", "Write", "Edit", "Glob", "Grep", "WebFetch", "WebSearch"}
  }

  /** `tool_input.get(key, "")`. */
  function Field(input: map<string, string>, key: string): string {
    if key in input then input[key] else ""
  }

  /** The untruncated detail: the command for Bash, the file path for Read/Write/Edit, the pattern for Glob/Grep,
      the url, or the query when the url is missing or empty, for WebFetch/WebSearch, and nothing otherwise. */
  function RawDetail(name: string, input: map<string, string>): string {
    if name == "Bash" then Field(input, "command")
    else if name == "Read" || name == "Write" || name == "Edit" then Field(input, "file_path")
    else if name == "Glob" || name == "Grep" then Field(input, "pattern")
    else if name == "WebFetch" || name == "WebSearch" then
      (if Field(input, "url") != "" then Field(input, "url") else Field(input, "query"))
    else ""
  }

  /** A detail longer than `MAX_DETAIL_LEN` keeps its first 120 characters followed by `…`. */
  function Truncate(d: string): (r: string)
    ensures |r| <= MaxDetailLen + 1
    ensures |d| <= MaxDetailLen ==> r == d
    ensures |d| > MaxDetailLen ==> |r| == MaxDetailLen + 1 && r[..MaxDetailLen] == d[..MaxDetailLen] && r[MaxDetailLen] == Ellipsis
  {
    if |d| > MaxDetailLen then d[..MaxDetailLen] + [Ellipsis] else d
  }

  /** `_tool_detail(tool_name, tool_input)`. */
  function ToolDetail(name: string, input: map<string, string>): (r: string)
    ensures |r| <= MaxDetailLen + 1
    ensures !HasDetailRule(name) ==> r == ""
    ensures |r| > MaxDetailLen ==> r[MaxDetailLen] == Ellipsis
  {
    Truncate(RawDetail(name, input))
  }

  /** Web tools prefer a non-empty `url` over `query`. */
  lemma WebDetailPrefersUrl(name: string, input: map<string, string>)
    requires name == "WebFetch" || name == "WebSearch"
    ensures "url" in input && input["url"] != "" ==> ToolDetail(name, input) == Truncate(input["url"])
    ensures ("url" !in input || input["url"] == "") && "query" in input ==> ToolDetail(name, input) == Truncate(input["query"])
  {
  }

  /** A detail is never truncated twice over: truncating a truncated detail changes nothing. */
  lemma TruncateIdempotent(d: string)
    ensures Truncate(Truncate(d)) == Truncate(d)
  {
    if |d| > MaxDetailLen {
      var r := Truncate(d);
      assert r[..MaxDetailLen] + [Ellipsis] == r;
    }
  }

  /** The status message `f"⏳ {label}..."` for the label `title`, followed by the escaped detail in a `<code>` element when the detail
      is non-empty. */
  function StatusText(title: string, detail: string): (r: string)
    ensures var head := "\U{23F3} " + title + "..."; head <= r && (detail == "" <==> r == head)
  {
    var head := "\U{23F3} " + title + "...";
    if detail != "" then head + "\n<code>" + Html.Escape(detail) + "</code>" else head
  }
}
