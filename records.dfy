/** The legislator record: one row of `legisladores.csv`. */
module Records {
  import opened Wrappers

  /**
   * The eleven columns of the file, in the file's order. A column the
   * scraper may leave as `None` (no image, no link, no bloc link) or that a
   * record may lack (contact details are only present when the profile
   * page was read) is an `Option`.
   */
  datatype Legislator = Legislator(
    name: Option<string>,        // nombre
    profileUrl: Option<string>,  // perfil_url
    imageUrl: Option<string>,    // imagen_url
    bloc: Option<string>,        // bloque
    blocUrl: Option<string>,     // bloque_url
    mandateStart: string,        // mandato_inicio
    mandateEnd: string,          // mandato_fin
    extractionDate: string,      // fecha_extraccion
    email: Option<string>,       // email
    phone: Option<string>,       // telefono
    committees: Option<string>)  // comisiones

  /** `merged` is `stored` with the bloc, the image and the extraction date taken from `scraped`. */
  predicate IsRefreshOf(merged: Legislator, stored: Legislator, scraped: Legislator) {
    // the three columns every scrape refreshes
    && merged.bloc == scraped.bloc
    && merged.imageUrl == scraped.imageUrl
    && merged.extractionDate == scraped.extractionDate
    // every other column keeps its stored value
    && merged.name == stored.name
    && merged.profileUrl == stored.profileUrl
    && merged.blocUrl == stored.blocUrl
    && merged.mandateStart == stored.mandateStart
    && merged.mandateEnd == stored.mandateEnd
    && merged.email == stored.email
    && merged.phone == stored.phone
    && merged.committees == stored.committees
  }
}
