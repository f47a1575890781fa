/** The heatmap statistic selector of calruns_dashboard.py: the six labels
    offered to the user and stats_dict, which names the column of the
    monthly table that colours the heatmap. */
module Stats {
  import opened Wrappers
  import Monthly

  /** The labels of the "Select a heatmap Statistic" box, in display order. */
  const StatLabels: seq<string> := ["Distance", "Time", "Average Pace", "Elevation", "Long", "Steps"]

  /** stats_dict: statistic label to column name. */
  const StatsDict: map<string, string> := map[
    "Distance" := "Distance",
    "Time" := "Time",
    "Average Pace" := "Seconds_Pace",
    "Elevation" := "Elevation",
    "Long" := "Long",
    "Steps" := "Steps"]

  /** stats_dict[name]; a label outside the table raises KeyError. */
  function SelectedStat(name: string): (column: Option<string>)
    ensures column.Some? <==> name in StatLabels
  {
    if name in StatsDict then Some(StatsDict[name]) else None
  }

  /** The columns of the monthly table that hold numbers. */
  const NumericColumns: seq<string> := ["Year", "Distance", "Time", "Seconds_Pace", "Elevation", "Long", "Steps"]

  /** The numeric value a column of the monthly table holds for one row, in
      the model's units (Time in tenths of a second, where the script's
      column holds seconds); Month, the two text columns and any unknown
      name have none. */
  function NumericValue(row: Monthly.MonthlyRow, column: string): (v: Option<real>)
    ensures v.Some? <==> column in NumericColumns
  {
    match column
    case "Year" => Some(row.year as real)
    case "Distance" => Some(row.distance as real)
    case "Time" => Some(row.time as real)
    case "Seconds_Pace" => Some(row.secondsPace)
    case "Elevation" => Some(row.elevation as real)
    case "Long" => Some(row.long as real)
    case "Steps" => Some(row.steps as real)
    case _ => None
  }

  /** Every offered label selects a column, and that column is numeric in
      every row, so the colour scale always has a quantity to show. */
  lemma EverySelectionIsNumeric(name: string, row: Monthly.MonthlyRow)
    requires name in StatLabels
    ensures SelectedStat(name).Some?
    ensures NumericValue(row, SelectedStat(name).value).Some?
  {
  }

  /** "Average Pace" colours by the numeric mean Seconds_Pace, not by the
      Average_Pace text; every other label is its own column name. */
  lemma AveragePaceSelectsSeconds(name: string, row: Monthly.MonthlyRow)
    requires name in StatLabels
    ensures name == "Average Pace" ==> SelectedStat(name) == Some("Seconds_Pace")
    ensures name == "Average Pace" ==> NumericValue(row, SelectedStat(name).value) == Some(row.secondsPace)
    ensures name != "Average Pace" ==> SelectedStat(name) == Some(name)
    ensures NumericValue(row, "Average_Pace") == None
    ensures NumericValue(row, "Display_Time") == None
  {
  }

  /** Different labels select different columns. */
  lemma SelectionInjective(a: string, b: string)
    requires a in StatLabels && b in StatLabels && a != b
    ensures SelectedStat(a) != SelectedStat(b)
  {
  }

  /** A label outside the table has no column. */
  lemma UnknownLabel(name: string)
    requires name !in StatLabels
    ensures SelectedStat(name) == None
  {
  }
}
