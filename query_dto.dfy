/**
 * A saved query as the workbook and the migrator see it. The report-only
 * fields (`oldUrl`, `newUrl`, `status`) are not part of this model.
 */
module Queries {

  class QueryDTO {
    var queryName: string
    var description: string
    var originalQuery: string
    var updatedQuery: string
    var impacted: bool

    /** A query read from a sheet row: every query starts not impacted. */
    constructor (queryName: string, description: string, originalQuery: string, updatedQuery: string)
      ensures this.queryName == queryName && this.description == description
      ensures this.originalQuery == originalQuery && this.updatedQuery == updatedQuery
      ensures !impacted
    {
      this.queryName := queryName;
      this.description := description;
      this.originalQuery := originalQuery;
      this.updatedQuery := updatedQuery;
      impacted := false;
    }
  }
}
