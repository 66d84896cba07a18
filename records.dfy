/** The records the listing calls return and the summary rows built from stale ones. */
module Records {
  import opened Wrappers
  import opened DateTimes

  /**
   * One listed resource: its `Name` and identifier keys (either may be absent),
   * its creation field, and the `Region` key the collector stamps on it.
   */
  datatype Resource<T> = Resource(name: Option<string>, id: Option<string>, created: T, region: Option<string>)

  /** An image: `CreationDate` is text, possibly absent. */
  type Image = Resource<Option<string>>

  /** A snapshot, or an image whose creation date has been parsed: `StartTime` is a datetime. */
  type Dated = Resource<DateTime>

  /** One stale-item summary: the dict with keys Name, ID, Date, Time, Region. */
  datatype StaleRow = StaleRow(name: string, id: string, date: string, time: string, region: string)
}
