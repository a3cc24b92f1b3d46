/** The uniform record every source adapter emits. */
module Games {

  /** The Heroic store backend a record came from. */
  datatype HeroicRunner = Legendary | Gog | Nile | Sideload {
    /** The tag the launch command uses: "legendary", "gog", "nile", "sideload". */
    function Tag(): string {
      match this
      case Legendary => "legendary"
      case Gog => "gog"
      case Nile => "nile"
      case Sideload => "sideload"
    }
  }

  /** How a launcher is installed, as the probes find it. */
  datatype Install = Flatpak | Native

  /** Which launcher a game belongs to, with the launch-time context it needs. */
  datatype Source =
    | Lutris
    | Heroic(runner: HeroicRunner)
    | Bottles(bottle: string)
    | Steam
    | Ryubing
    | RetroArch(corePath: string, coreName: string)

  /** One discovered game: the launcher's own identifier and a display title. */
  datatype GameEntry = GameEntry(id: string, title: string, source: Source)
}
